/**
 Bringing the stored attributes of a layer into agreement with the fields the server reports
 (geonode/geoserver/helpers.py, set_attributes).
 */
module LayerAttributes {
  import opened Lists

  /** A stored attribute. */
  datatype Row = Row(name: string, ftype: string, description: Option<string>, caption: Option<string>, order: int,
      visible: bool)

  /** A field as the server reports it; a field can lack a name. */
  datatype Reported = Reported(field: Option<string>, ftype: string)

  /** A reported field together with what users have written about it. */
  datatype Entry = Entry(field: Option<string>, ftype: string, description: Option<string>, caption: Option<string>,
      order: int)

  predicate About(e: Entry, r: Row) {
    e.field == Some(r.name)
  }

  /** An entry after looking at one stored attribute. */
  function Noted(e: Entry, r: Row): Entry {
    if About(e, r) then e.(description := r.description, caption := r.caption, order := r.order) else e
  }

  /** The description, label and order of the last stored attribute of that name. */
  function Recall(e: Entry, rows: seq<Row>): Entry
    decreases |rows|
  {
    if rows == [] then e else Recall(Noted(e, rows[0]), rows[1..])
  }

  function RecallAll(entries: seq<Entry>, rows: seq<Row>): seq<Entry> {
    seq(|entries|, i requires 0 <= i < |entries| => Recall(entries[i], rows))
  }

  function Blank(f: Reported): Entry {
    Entry(f.field, f.ftype, None, None, 0)
  }

  function Blanks(reported: seq<Reported>): seq<Entry> {
    seq(|reported|, i requires 0 <= i < |reported| => Blank(reported[i]))
  }

  function Entries(reported: seq<Reported>, rows: seq<Row>): seq<Entry> {
    RecallAll(Blanks(reported), rows)
  }

  predicate IsReported(reported: seq<Reported>, name: string) {
    exists f :: f in reported && f.field == Some(name)
  }

  /** Which stored attributes are not deleted. */
  function Keep(reported: seq<Reported>, overwrite: bool): Row -> bool {
    (r: Row) => !overwrite && IsReported(reported, r.name)
  }

  function Kept(rows: seq<Row>, reported: seq<Reported>, overwrite: bool): seq<Row> {
    Filter(rows, Keep(reported, overwrite))
  }

  /** The lookup of get_or_create: all five columns agree. */
  predicate Matches(e: Entry, r: Row) {
    About(e, r) && r.ftype == e.ftype && r.description == e.description && r.caption == e.caption && r.order == e.order
  }

  predicate Visible(ftype: string) {
    !("gml:" <= ftype)
  }

  function NewRow(e: Entry, order: int): Row
    requires e.field.Some?
  {
    Row(e.field.value, e.ftype, e.description, e.caption, order, Visible(e.ftype))
  }

  /** The table while fields are added, the next display order, and whether a lookup met several rows (an exception). */
  datatype Progress = Progress(rows: seq<Row>, next: int, failed: bool)

  /** How many rows the lookup meets. */
  function Count(rows: seq<Row>, e: Entry): nat {
    |Filter(rows, (r: Row) => Matches(e, r))|
  }

  function Add(p: Progress, e: Entry): Progress {
    if p.failed || e.field.None? then p
    else
      var found := Count(p.rows, e);
      if found == 0 then Progress(p.rows + [NewRow(e, p.next)], p.next + 1, false)
      else if found == 1 then p
      else p.(failed := true)
  }

  function AddAll(p: Progress, entries: seq<Entry>): Progress
    decreases |entries|
  {
    if entries == [] then p else AddAll(Add(p, entries[0]), entries[1..])
  }

  function SetAttributes(rows: seq<Row>, reported: seq<Reported>, overwrite: bool): Progress {
    var kept := Kept(rows, reported, overwrite);
    AddAll(Progress(kept, |kept| + 1, false), Entries(reported, rows))
  }

  predicate SameFields(entries: seq<Entry>, reported: seq<Reported>) {
    |entries| == |reported| && forall i :: 0 <= i < |entries| ==> entries[i].field == reported[i].field
  }

  /** The inner loop: every entry of the map is compared with one stored attribute. */
  method Note(attributeMap: seq<Entry>, la: Row) returns (r: seq<Entry>, lafound: bool)
    ensures r == NotedAll(attributeMap, la)
    ensures lafound <==> exists k :: 0 <= k < |attributeMap| && About(attributeMap[k], la)
  {
    r, lafound := attributeMap, false;
    for k := 0 to |attributeMap|
      invariant |r| == |attributeMap|
      invariant lafound <==> exists h :: 0 <= h < k && About(attributeMap[h], la)
      invariant forall h :: 0 <= h < |r| ==> r[h] == if h < k then Noted(attributeMap[h], la) else attributeMap[h]
    {
      if About(r[k], la) {
        lafound := true;
        r := r[k := r[k].(description := la.description, caption := la.caption, order := la.order)];
      }
    }
  }

  function NotedAll(entries: seq<Entry>, la: Row): seq<Entry> {
    seq(|entries|, i requires 0 <= i < |entries| => Noted(entries[i], la))
  }

  lemma {:induction false} RecallSnoc(e: Entry, rows: seq<Row>, la: Row)
    ensures Recall(e, rows + [la]) == Noted(Recall(e, rows), la)
    decreases |rows|
  {
    if rows == [] {
      assert rows + [la] == [la] && [la][1..] == [];
    } else {
      assert (rows + [la])[1..] == rows[1..] + [la];
      RecallSnoc(Noted(e, rows[0]), rows[1..], la);
    }
  }

  lemma EntriesSnoc(reported: seq<Reported>, rows: seq<Row>, la: Row)
    ensures NotedAll(Entries(reported, rows), la) == Entries(reported, rows + [la])
    ensures SameFields(Entries(reported, rows), reported)
  {
    forall i | 0 <= i < |reported| ensures Recall(Blank(reported[i]), rows + [la])
        == Noted(Recall(Blank(reported[i]), rows), la) {
      RecallSnoc(Blank(reported[i]), rows, la);
    }
    forall i | 0 <= i < |reported| ensures Entries(reported, rows)[i].field == reported[i].field {
      EntryAt(reported, rows, i);
    }
  }

  function WithoutRow(rows: seq<Row>, place: nat): seq<Row>
    requires place < |rows|
  {
    rows[..place] + rows[place + 1..]
  }

  lemma FilterSnoc(seen: seq<Row>, la: Row, keep: Row -> bool)
    ensures Filter(seen + [la], keep) == if keep(la) then Filter(seen, keep) + [la] else Filter(seen, keep)
  {
    FilterAppend(seen, [la], keep);
    assert Filter([la], keep) == if keep(la) then [la] else [];
  }

  /** The attribute table of one layer. */
  class AttributeTable {
    var rows: seq<Row>

    constructor (rows: seq<Row>)
      ensures this.rows == rows
    {
      this.rows := rows;
    }

    /** One stored attribute: its texts are noted in the map, and it goes unless it is reported and may stay. */
    method Visit(la: Row, attributeMap: seq<Entry>, reported: seq<Reported>, overwrite: bool,
                 ghost done: seq<Row>, rest: seq<Row>) returns (r: seq<Entry>)
      requires rows == done + ([la] + rest) && SameFields(attributeMap, reported)
      modifies this
      ensures rows == (if Keep(reported, overwrite)(la) then done + [la] else done) + rest
      ensures r == NotedAll(attributeMap, la)
    {
      var lafound;
      r, lafound := Note(attributeMap, la);
      if overwrite || !lafound {
        rows := WithoutRow(rows, |rows| - |rest| - 1);
      }
    }

    /** Deletes what is no longer reported and hands back the reported fields with what users wrote. */
    method DropMissing(reported: seq<Reported>, overwrite: bool) returns (attributeMap: seq<Entry>)
      modifies this
      ensures rows == Kept(old(rows), reported, overwrite)
      ensures attributeMap == Entries(reported, old(rows))
    {
      attributeMap := Blanks(reported);
      var attributes := rows;
      ghost var seen: seq<Row> := [];
      while attributes != []
        invariant old(rows) == seen + attributes
        invariant rows == Kept(seen, reported, overwrite) + attributes
        invariant attributeMap == Entries(reported, seen)
        decreases |attributes|
      {
        var la, rest := attributes[0], attributes[1..];
        assert attributes == [la] + rest && seen + attributes == seen + [la] + rest;
        EntriesSnoc(reported, seen, la);
        FilterSnoc(seen, la, Keep(reported, overwrite));
        attributeMap := Visit(la, attributeMap, reported, overwrite, Kept(seen, reported, overwrite), rest);
        seen, attributes := seen + [la], rest;
      }
      assert seen == old(rows) && rows == Kept(seen, reported, overwrite);
    }

    /** False stands for the exception of an ambiguous lookup. */
    method Reconcile(reported: seq<Reported>, overwrite: bool) returns (ok: bool)
      modifies this
      ensures rows == SetAttributes(old(rows), reported, overwrite).rows
      ensures ok <==> !SetAttributes(old(rows), reported, overwrite).failed
    {
      var attributeMap := DropMissing(reported, overwrite);
      var iter := |rows| + 1;
      ghost var goal := SetAttributes(old(rows), reported, overwrite);
      for i := 0 to |attributeMap|
        invariant goal == AddAll(Progress(rows, iter, false), attributeMap[i..])
      {
        assert attributeMap[i..][1..] == attributeMap[i + 1..];
        var e := attributeMap[i];
        if e.field.Some? {
          var found := Count(rows, e);
          if found > 1 {
            StaysFailed(Progress(rows, iter, true), attributeMap[i + 1..]);
            return false;
          }
          if found == 0 {
            rows := rows + [NewRow(e, iter)];
            iter := iter + 1;
          }
        }
      }
      ok := true;
    }
  }

  lemma {:induction false} StaysFailed(p: Progress, entries: seq<Entry>)
    requires p.failed
    ensures AddAll(p, entries) == p
    decreases |entries|
  {
    if entries != [] {
      StaysFailed(p, entries[1..]);
    }
  }

  // ---- What a run comes to ----

  predicate UniqueNames(rows: seq<Row>) {
    forall i, j :: 0 <= i < j < |rows| ==> rows[i].name != rows[j].name
  }

  predicate DistinctFields(reported: seq<Reported>) {
    forall i, j :: 0 <= i < j < |reported| && reported[i].field.Some? ==> reported[i].field != reported[j].field
  }

  predicate DistinctEntries(entries: seq<Entry>) {
    forall i, j :: 0 <= i < j < |entries| && entries[i].field.Some? ==> entries[i].field != entries[j].field
  }

  predicate Found(e: Entry, rows: seq<Row>) {
    exists r :: r in rows && Matches(e, r)
  }

  /** The rows a run creates: one for every named field without a matching kept row, numbered from next on. */
  function Created(entries: seq<Entry>, kept: seq<Row>, next: int): seq<Row> {
    if entries == [] then []
    else if entries[0].field.None? || Found(entries[0], kept) then Created(entries[1..], kept, next)
    else [NewRow(entries[0], next)] + Created(entries[1..], kept, next + 1)
  }

  lemma CountSplits(a: seq<Row>, b: seq<Row>, e: Entry)
    ensures Count(a + b, e) == Count(a, e) + Count(b, e)
    ensures Count(a, e) == 0 <==> !Found(e, a)
  {
    FilterAppend(a, b, (r: Row) => Matches(e, r));
    var found := Filter(a, (r: Row) => Matches(e, r));
    assert found != [] ==> found[0] in found;
  }

  lemma {:induction false} CountUnique(rows: seq<Row>, e: Entry)
    requires UniqueNames(rows) && e.field.Some?
    ensures Count(rows, e) <= 1
  {
    if rows != [] {
      var first, rest := rows[0], rows[1..];
      CountUnique(rest, e);
      if Matches(e, first) {
        assert forall r :: r in rest ==> r.name != first.name;
        CountSplits(rest, [], e);
      }
    }
  }

  /** A named entry for which the lookup meets several rows. */
  predicate Ambiguous(entries: seq<Entry>, rows: seq<Row>) {
    exists e :: e in entries && e.field.Some? && Count(rows, e) > 1
  }

  lemma {:induction false} AddAllShape(kept: seq<Row>, done: seq<Row>, next: int, entries: seq<Entry>)
    requires DistinctEntries(entries)
    requires forall r, e :: r in done && e in entries ==> !About(e, r)
    ensures AddAll(Progress(kept + done, next, false), entries).failed <==> Ambiguous(entries, kept)
    ensures !Ambiguous(entries, kept) ==>
              AddAll(Progress(kept + done, next, false), entries).rows == kept + done + Created(entries, kept, next)
    decreases |entries|
  {
    if entries != [] {
      var e, rest := entries[0], entries[1..];
      assert entries == [e] + rest && e in entries;
      AddShape(kept, done, next, e);
      AmbiguousCons(e, rest, kept);
      var p := Progress(kept + done, next, false);
      assert AddAll(p, entries) == AddAll(Add(p, e), rest);
      if e.field.Some? && Count(kept, e) > 1 {
        StaysFailed(Add(p, e), rest);
      } else if e.field.None? || Found(e, kept) {
        AddAllShape(kept, done, next, rest);
        assert Created(entries, kept, next) == Created(rest, kept, next);
      } else {
        var row := NewRow(e, next);
        AddAllShape(kept, done + [row], next + 1, rest);
        assert Created(entries, kept, next) == [row] + Created(rest, kept, next + 1);
        ConcatAgain(kept, done, row, Created(rest, kept, next + 1));
      }
    }
  }

  lemma AddShape(kept: seq<Row>, done: seq<Row>, next: int, e: Entry)
    requires forall r :: r in done ==> !About(e, r)
    ensures Count(kept, e) == 0 <==> !Found(e, kept)
    ensures Add(Progress(kept + done, next, false), e)
         == if e.field.None? || Count(kept, e) == 1 then Progress(kept + done, next, false)
            else if Count(kept, e) > 1 then Progress(kept + done, next, true)
            else Progress(kept + (done + [NewRow(e, next)]), next + 1, false)
  {
    CountSplits(kept, done, e);
    CountSplits(done, [], e);
    if e.field.Some? {
      assert kept + done + [NewRow(e, next)] == kept + (done + [NewRow(e, next)]);
    }
  }

  lemma ConcatAgain(kept: seq<Row>, done: seq<Row>, row: Row, more: seq<Row>)
    ensures kept + (done + [row]) + more == kept + done + ([row] + more)
  {
  }

  lemma AmbiguousCons(e: Entry, rest: seq<Entry>, rows: seq<Row>)
    ensures Ambiguous([e] + rest, rows) <==> (e.field.Some? && Count(rows, e) > 1) || Ambiguous(rest, rows)
  {
    assert e in [e] + rest && forall x :: x in [e] + rest <==> x == e || x in rest;
  }

  /** A recalled entry is about the same field and type. */
  lemma {:induction false} RecallKeepsField(e: Entry, rows: seq<Row>)
    ensures Recall(e, rows).field == e.field && Recall(e, rows).ftype == e.ftype
    ensures (forall r :: r in rows ==> !About(e, r)) ==> Recall(e, rows) == e
    decreases |rows|
  {
    if rows != [] {
      RecallKeepsField(Noted(e, rows[0]), rows[1..]);
    }
  }

  lemma EntryAt(reported: seq<Reported>, rows: seq<Row>, i: nat)
    requires i < |reported|
    ensures Entries(reported, rows)[i] == Recall(Blank(reported[i]), rows)
    ensures Entries(reported, rows)[i].field == reported[i].field
    ensures Entries(reported, rows)[i].ftype == reported[i].ftype
  {
    RecallKeepsField(Blank(reported[i]), rows);
  }

  /** With unique names, an entry recalls exactly the attribute of its name. */
  lemma {:induction false} RecallUnique(e: Entry, rows: seq<Row>, r: Row)
    requires UniqueNames(rows) && r in rows && About(e, r)
    ensures Recall(e, rows) == Noted(e, r)
    decreases |rows|
  {
    var first, rest := rows[0], rows[1..];
    assert rows == [first] + rest;
    if About(e, first) {
      assert r == first;
      RecallKeepsField(Noted(e, r), rest);
    } else {
      RecallUnique(e, rest, r);
    }
  }

  lemma EntriesDistinct(reported: seq<Reported>, rows: seq<Row>)
    requires DistinctFields(reported)
    ensures DistinctEntries(Entries(reported, rows))
  {
    forall i | 0 <= i < |reported| ensures Entries(reported, rows)[i].field == reported[i].field {
      EntryAt(reported, rows, i);
    }
  }

  lemma {:induction false} KeptUnique(rows: seq<Row>, keep: Row -> bool)
    requires UniqueNames(rows)
    ensures UniqueNames(Filter(rows, keep))
  {
    if rows != [] {
      KeptUnique(rows[1..], keep);
      var rest := Filter(rows[1..], keep);
      assert forall i :: 0 <= i < |rest| ==> rest[i] in rest;
    }
  }

  /**
   The outcome of a run: the kept rows, unchanged and in front, then the created ones; it fails exactly on an
   ambiguous lookup.
   */
  lemma RunShape(rows: seq<Row>, reported: seq<Reported>, overwrite: bool)
    requires DistinctFields(reported)
    ensures var kept := Kept(rows, reported, overwrite);
            && (SetAttributes(rows, reported, overwrite).failed <==> Ambiguous(Entries(reported, rows), kept))
            && (!SetAttributes(rows, reported, overwrite).failed ==>
                  SetAttributes(rows, reported, overwrite).rows
                      == kept + Created(Entries(reported, rows), kept, |kept| + 1))
  {
    var kept := Kept(rows, reported, overwrite);
    EntriesDistinct(reported, rows);
    AddAllShape(kept, [], |kept| + 1, Entries(reported, rows));
    assert kept + [] == kept;
  }

  /** With unique names, or when the table is rebuilt, no lookup is ambiguous. */
  lemma RunSucceeds(rows: seq<Row>, reported: seq<Reported>, overwrite: bool)
    requires DistinctFields(reported) && (overwrite || UniqueNames(rows))
    ensures !SetAttributes(rows, reported, overwrite).failed
  {
    var kept := Kept(rows, reported, overwrite);
    RunShape(rows, reported, overwrite);
    if overwrite {
      FilterNone(rows, Keep(reported, true));
    } else {
      KeptUnique(rows, Keep(reported, overwrite));
    }
    forall e | e in Entries(reported, rows) && e.field.Some? ensures Count(kept, e) <= 1 {
      CountUnique(kept, e);
    }
  }

  lemma {:induction false} CreatedSource(entries: seq<Entry>, kept: seq<Row>, next: int, row: Row) returns (i: nat)
    requires row in Created(entries, kept, next)
    ensures i < |entries| && !Found(entries[i], kept) && exists order ::
        entries[i].field.Some? && row == NewRow(entries[i], order)
    decreases |entries|
  {
    var e, rest := entries[0], entries[1..];
    if e.field.None? || Found(e, kept) {
      i := CreatedSource(rest, kept, next, row);
      i := i + 1;
    } else if row == NewRow(e, next) {
      i := 0;
    } else {
      i := CreatedSource(rest, kept, next + 1, row);
      i := i + 1;
    }
  }

  lemma {:induction false} EntryHasRow(entries: seq<Entry>, kept: seq<Row>, next: int, i: nat) returns (order: int)
    requires i < |entries| && entries[i].field.Some? && !Found(entries[i], kept)
    ensures NewRow(entries[i], order) in Created(entries, kept, next)
    decreases |entries|
  {
    var e, rest := entries[0], entries[1..];
    if i == 0 {
      order := next;
    } else if e.field.None? || Found(e, kept) {
      order := EntryHasRow(rest, kept, next, i - 1);
    } else {
      order := EntryHasRow(rest, kept, next + 1, i - 1);
    }
  }

  predicate HasName(rows: seq<Row>, name: string) {
    exists r :: r in rows && r.name == name
  }

  /** A created row comes from a reported field; it carries the field's type and what was recalled for it. */
  lemma CreatedFrom(rows: seq<Row>, reported: seq<Reported>, kept: seq<Row>, next: int, row: Row) returns (i: nat)
    requires row in Created(Entries(reported, rows), kept, next)
    ensures i < |reported| && reported[i].field == Some(row.name) && reported[i].ftype == row.ftype
    ensures var e := Recall(Blank(reported[i]), rows);
            row.description == e.description && row.caption == e.caption && !Found(e, kept)
  {
    i := CreatedSource(Entries(reported, rows), kept, next, row);
    EntryAt(reported, rows, i);
  }

  /** A reported field has a row afterwards, created or found. */
  lemma ReportedHasRow(rows: seq<Row>, reported: seq<Reported>, kept: seq<Row>, next: int, i: nat) returns (row: Row)
    requires i < |reported| && reported[i].field.Some?
    ensures row in kept + Created(Entries(reported, rows), kept, next) && reported[i].field == Some(row.name)
    ensures row.ftype == reported[i].ftype
    ensures !Found(Recall(Blank(reported[i]), rows), kept) ==> row in Created(Entries(reported, rows), kept, next)
  {
    EntryAt(reported, rows, i);
    var e := Entries(reported, rows)[i];
    if Found(e, kept) {
      row :| row in kept && Matches(e, row);
    } else {
      var order := EntryHasRow(Entries(reported, rows), kept, next, i);
      row := NewRow(e, order);
    }
  }

  /** After a run, the stored names are the reported ones. */
  lemma NamesAgree(rows: seq<Row>, reported: seq<Reported>, overwrite: bool, name: string)
    requires DistinctFields(reported) && !SetAttributes(rows, reported, overwrite).failed
    ensures HasName(SetAttributes(rows, reported, overwrite).rows, name) <==> IsReported(reported, name)
  {
    var kept := Kept(rows, reported, overwrite);
    var after := SetAttributes(rows, reported, overwrite).rows;
    RunShape(rows, reported, overwrite);
    if IsReported(reported, name) {
      var i :| 0 <= i < |reported| && reported[i].field == Some(name);
      var row := ReportedHasRow(rows, reported, kept, |kept| + 1, i);
      assert row in after;
    }
    if HasName(after, name) {
      var row :| row in after && row.name == name;
      if row !in kept {
        var i := CreatedFrom(rows, reported, kept, |kept| + 1, row);
        assert reported[i] in reported;
      }
    }
  }

  /**
   Whatever users wrote about a field that is still reported survives, on every row of that name, overwriting or
   not.
   */
  lemma UserTextSurvives(rows: seq<Row>, reported: seq<Reported>, overwrite: bool, before: Row, after: Row)
    requires UniqueNames(rows) && DistinctFields(reported)
    requires before in rows && after in SetAttributes(rows, reported, overwrite).rows && after.name == before.name
    ensures after.description == before.description && after.caption == before.caption
  {
    var kept := Kept(rows, reported, overwrite);
    RunShape(rows, reported, overwrite);
    RunSucceeds(rows, reported, overwrite);
    if after !in kept {
      var i := CreatedFrom(rows, reported, kept, |kept| + 1, after);
      RecallUnique(Blank(reported[i]), rows, before);
    }
  }

  /** The last stored attribute of its name. */
  predicate IsLast(rows: seq<Row>, k: nat) {
    k < |rows| && forall j :: k < j < |rows| ==> rows[j].name != rows[k].name
  }

  lemma {:induction false} RecallLast(e: Entry, rows: seq<Row>, k: nat)
    requires IsLast(rows, k) && About(e, rows[k])
    ensures Recall(e, rows) == Noted(e, rows[k])
    decreases |rows|
  {
    var first, rest := rows[0], rows[1..];
    if k == 0 {
      assert forall r :: r in rest ==> r.name != first.name;
      RecallKeepsField(Noted(e, first), rest);
    } else {
      assert rest[k - 1] == rows[k];
      assert forall j :: k - 1 < j < |rest| ==> rest[j] == rows[j + 1];
      RecallLast(Noted(e, first), rest, k - 1);
    }
  }

  /**
   From any stored table, doubled names and all: a row a run creates has the text of the last stored row of its name,
   or none if there was no such row.
   */
  lemma LastTextSurvives(rows: seq<Row>, reported: seq<Reported>, overwrite: bool, after: Row)
    requires DistinctFields(reported) && !SetAttributes(rows, reported, overwrite).failed
    requires after in SetAttributes(rows, reported, overwrite).rows && (overwrite || after !in rows)
    ensures forall k: nat :: IsLast(rows, k) && rows[k].name == after.name ==>
              after.description == rows[k].description && after.caption == rows[k].caption
    ensures !HasName(rows, after.name) ==> after.description == None && after.caption == None
  {
    var kept := Kept(rows, reported, overwrite);
    RunShape(rows, reported, overwrite);
    assert after !in kept;
    var i := CreatedFrom(rows, reported, kept, |kept| + 1, after);
    forall k: nat | IsLast(rows, k) && rows[k].name == after.name
      ensures after.description == rows[k].description && after.caption == rows[k].caption
    {
      RecallLast(Blank(reported[i]), rows, k);
    }
    RecallKeepsField(Blank(reported[i]), rows);
  }

  /** The named fields, in the order the server reports them. */
  function Named(reported: seq<Reported>): seq<Reported> {
    Filter(reported, (f: Reported) => f.field.Some?)
  }

  lemma {:induction false} CreatedInOrder(reported: seq<Reported>, rows: seq<Row>, next: int)
    ensures var c := Created(Entries(reported, rows), [], next);
            |c| == |Named(reported)| && forall i :: 0 <= i < |c| ==> Rebuilt(c[i], Named(reported)[i], next + i)
    decreases |reported|
  {
    if reported != [] {
      var rest := reported[1..];
      RecallKeepsField(Blank(reported[0]), rows);
      assert Entries(reported, rows)[1..] == Entries(rest, rows);
      CreatedInOrder(rest, rows, if reported[0].field.Some? then next + 1 else next);
    }
  }

  /** The row a rebuilt table has for a field. */
  predicate Rebuilt(r: Row, f: Reported, order: int) {
    f.field == Some(r.name) && r.ftype == f.ftype && r.order == order && r.visible == Visible(r.ftype)
  }

  /**
   Overwriting rebuilds any table: one row per named field, in server order, with display orders 1, 2, ..., n.
   Doubled names are healed.
   */
  lemma OverwriteRenumbers(rows: seq<Row>, reported: seq<Reported>)
    requires DistinctFields(reported)
    ensures !SetAttributes(rows, reported, true).failed && UniqueNames(SetAttributes(rows, reported, true).rows)
    ensures var after := SetAttributes(rows, reported, true).rows;
            |after| == |Named(reported)| && forall i :: 0 <= i < |after| ==>
                Rebuilt(after[i], Named(reported)[i], i + 1)
  {
    RunSucceeds(rows, reported, true);
    RunShape(rows, reported, true);
    FilterNone(rows, Keep(reported, true));
    CreatedInOrder(reported, rows, 1);
    EntriesDistinct(reported, rows);
    CreatedUnique(Entries(reported, rows), [], 1);
    assert [] + Created(Entries(reported, rows), [], 1) == Created(Entries(reported, rows), [], 1);
  }

  // ---- What a created row shows ----

  lemma {:induction false} CreatedOrders(entries: seq<Entry>, kept: seq<Row>, next: int)
    ensures forall i :: 0 <= i < |Created(entries, kept, next)| ==> Created(entries, kept, next)[i].order == next + i
    decreases |entries|
  {
    if entries != [] {
      CreatedOrders(entries[1..], kept, next);
      CreatedOrders(entries[1..], kept, next + 1);
    }
  }

  lemma {:induction false} CreatedVisible(entries: seq<Entry>, kept: seq<Row>, next: int)
    ensures forall row :: row in Created(entries, kept, next) ==>
              (row.visible <==> !(|row.ftype| >= 4 && row.ftype[..4] == "gml:"))
    decreases |entries|
  {
    if entries != [] {
      CreatedVisible(entries[1..], kept, next);
      CreatedVisible(entries[1..], kept, next + 1);
      var f := entries[0].ftype;
      assert "gml:" <= f <==> |f| >= 4 && f[..4] == "gml:";
    }
  }

  /** A row a run creates has the type of its field; it is hidden exactly if that begins with "gml:". */
  lemma CreatedExactly(rows: seq<Row>, reported: seq<Reported>, overwrite: bool, row: Row)
    requires DistinctFields(reported) && !SetAttributes(rows, reported, overwrite).failed
    requires row in SetAttributes(rows, reported, overwrite).rows && (overwrite || row !in rows)
    ensures exists f :: f in reported && f.field == Some(row.name) && f.ftype == row.ftype
    ensures row.visible <==> !(|row.ftype| >= 4 && row.ftype[..4] == "gml:")
  {
    var kept := Kept(rows, reported, overwrite);
    RunShape(rows, reported, overwrite);
    assert row !in kept;
    CreatedVisible(Entries(reported, rows), kept, |kept| + 1);
    var i := CreatedFrom(rows, reported, kept, |kept| + 1, row);
    assert reported[i] in reported;
  }

  /**
   The rows a run leaves: the old ones it keeps as they are and in order, and after them new ones with the next
   display orders.
   */
  lemma OrdersExactly(rows: seq<Row>, reported: seq<Reported>, overwrite: bool)
    requires DistinctFields(reported) && !SetAttributes(rows, reported, overwrite).failed
    ensures var after, n := SetAttributes(rows, reported, overwrite).rows, |Kept(rows, reported, overwrite)|;
            && n <= |after| && (forall i :: 0 <= i < n ==> after[i] in rows)
            && (forall i :: n <= i < |after| ==> after[i].order == i + 1)
    ensures forall r :: r in Kept(rows, reported, overwrite)
                    <==> r in rows && !overwrite && exists f :: f in reported && f.field == Some(r.name)
  {
    var kept := Kept(rows, reported, overwrite);
    RunShape(rows, reported, overwrite);
    CreatedOrders(Entries(reported, rows), kept, |kept| + 1);
    assert forall i :: 0 <= i < |kept| ==> kept[i] in kept;
  }

  /** A field of each kind, on an empty table. */
  lemma SampleVisibility(name: string)
    ensures SetAttributes([], [Reported(Some(name), "xsd:string")], false).rows
         == [Row(name, "xsd:string", None, None, 1, true)]
    ensures SetAttributes([], [Reported(Some(name), "gml:PointPropertyType")], false).rows
         == [Row(name, "gml:PointPropertyType", None, None, 1, false)]
  {
    SampleRow(name, "xsd:string");
    SampleRow(name, "gml:PointPropertyType");
    assert "xsd:string"[0] != "gml:"[0];
    assert "gml:PointPropertyType"[..4] == "gml:";
  }

  lemma SampleRow(name: string, ftype: string)
    ensures SetAttributes([], [Reported(Some(name), ftype)], false).rows
         == [Row(name, ftype, None, None, 1, !("gml:" <= ftype))]
  {
    var reported := [Reported(Some(name), ftype)];
    var e := Entry(Some(name), ftype, None, None, 0);
    assert Entries(reported, []) == [e] && [e][1..] == [];
    RunSucceeds([], reported, false);
    RunShape([], reported, false);
    assert Kept([], reported, false) == [];
    assert !Found(e, []);
    assert Created([e], [], 1) == [NewRow(e, 1)];
  }

  // ---- When names stay unique ----

  /** No stored field is reported with another type. */
  predicate TypesUnchanged(rows: seq<Row>, reported: seq<Reported>) {
    forall r, f :: r in rows && f in reported && f.field == Some(r.name) ==> f.ftype == r.ftype
  }

  lemma {:induction false} CreatedUnique(entries: seq<Entry>, kept: seq<Row>, next: int)
    requires DistinctEntries(entries)
    ensures UniqueNames(Created(entries, kept, next))
    decreases |entries|
  {
    if entries != [] {
      var e, rest := entries[0], entries[1..];
      if e.field.None? || Found(e, kept) {
        CreatedUnique(rest, kept, next);
      } else {
        CreatedUnique(rest, kept, next + 1);
        var more := Created(rest, kept, next + 1);
        forall i | 0 <= i < |more| ensures more[i].name != e.field.value {
          var k := CreatedSource(rest, kept, next + 1, more[i]);
          assert rest[k] == entries[k + 1];
        }
      }
    }
  }

  lemma StaysUnique(rows: seq<Row>, reported: seq<Reported>, overwrite: bool)
    requires UniqueNames(rows) && DistinctFields(reported)
    requires overwrite || TypesUnchanged(rows, reported)
    ensures UniqueNames(SetAttributes(rows, reported, overwrite).rows)
  {
    var kept := Kept(rows, reported, overwrite);
    var created := Created(Entries(reported, rows), kept, |kept| + 1);
    RunShape(rows, reported, overwrite);
    RunSucceeds(rows, reported, overwrite);
    KeptUnique(rows, Keep(reported, overwrite));
    EntriesDistinct(reported, rows);
    CreatedUnique(Entries(reported, rows), kept, |kept| + 1);
    forall r, s | r in kept && s in created ensures r.name != s.name {
      if r.name == s.name {
        var i := CreatedFrom(rows, reported, kept, |kept| + 1, s);
        RecallUnique(Blank(reported[i]), rows, r);
        assert reported[i] in reported;
        assert Matches(Recall(Blank(reported[i]), rows), r);
      }
    }
  }

  lemma ChangedTypeDoubles(rows: seq<Row>, reported: seq<Reported>, r: Row, i: nat)
    requires UniqueNames(rows) && DistinctFields(reported)
    requires r in rows && i < |reported| && reported[i].field == Some(r.name) && reported[i].ftype != r.ftype
    ensures !UniqueNames(SetAttributes(rows, reported, false).rows)
  {
    var kept := Kept(rows, reported, false);
    RunShape(rows, reported, false);
    RunSucceeds(rows, reported, false);
    assert reported[i] in reported && r in kept;
    var e := Recall(Blank(reported[i]), rows);
    RecallKeepsField(Blank(reported[i]), rows);
    forall s | s in kept ensures !Matches(e, s) {
      if About(e, s) {
        var j, k :| 0 <= j < |rows| && 0 <= k < |rows| && rows[j] == r && rows[k] == s;
        assert j == k;
      }
    }
    var row := ReportedHasRow(rows, reported, kept, |kept| + 1, i);
    var created := Created(Entries(reported, rows), kept, |kept| + 1);
    var j, k :| 0 <= j < |kept| && kept[j] == r && 0 <= k < |created| && created[k] == row;
    assert (kept + created)[j] == r && (kept + created)[|kept| + k] == row;
  }

  /** Names stay unique exactly when the table is rebuilt or no stored field is reported with another type. */
  lemma UniqueExactly(rows: seq<Row>, reported: seq<Reported>, overwrite: bool)
    requires UniqueNames(rows) && DistinctFields(reported)
    ensures UniqueNames(SetAttributes(rows, reported, overwrite).rows) <==> overwrite || TypesUnchanged(rows, reported)
  {
    if overwrite || TypesUnchanged(rows, reported) {
      StaysUnique(rows, reported, overwrite);
    } else {
      var r, f :| r in rows && f in reported && f.field == Some(r.name) && f.ftype != r.ftype;
      var i :| 0 <= i < |reported| && reported[i] == f;
      ChangedTypeDoubles(rows, reported, r, i);
    }
  }

  // ---- A second run ----

  lemma {:induction false} RecallConcat(e: Entry, a: seq<Row>, b: seq<Row>)
    ensures Recall(e, a + b) == Recall(Recall(e, a), b)
    decreases |a|
  {
    if a == [] {
      assert a + b == b;
    } else {
      assert (a + b)[1..] == a[1..] + b;
      RecallConcat(Noted(e, a[0]), a[1..], b);
    }
  }

  /** Rows that are not about the entry can be left out. */
  lemma {:induction false} RecallFiltered(e: Entry, rows: seq<Row>, keep: Row -> bool)
    requires forall r :: r in rows && About(e, r) ==> keep(r)
    ensures Recall(e, Filter(rows, keep)) == Recall(e, rows)
    decreases |rows|
  {
    if rows != [] {
      var first, rest := rows[0], rows[1..];
      assert rows == [first] + rest && first in rows;
      FilterCons(first, rest, keep);
      RecallFiltered(Noted(e, first), rest, keep);
      if keep(first) {
        assert ([first] + Filter(rest, keep))[1..] == Filter(rest, keep);
      } else {
        assert [] + Filter(rest, keep) == Filter(rest, keep);
      }
    }
  }

  /** The one row a run creates for an entry, between rows for other entries. */
  lemma {:induction false} CreatedOnce(entries: seq<Entry>, kept: seq<Row>, next: int, i: nat)
    returns (pre: seq<Row>, order: int, post: seq<Row>)
    requires DistinctEntries(entries) && i < |entries| && entries[i].field.Some? && !Found(entries[i], kept)
    ensures Created(entries, kept, next) == pre + [NewRow(entries[i], order)] + post
    ensures forall r :: r in pre || r in post ==> !About(entries[i], r)
    decreases |entries|
  {
    var e, rest := entries[0], entries[1..];
    if i == 0 {
      pre, order, post := [], next, Created(rest, kept, next + 1);
      forall r | r in post ensures !About(e, r) {
        var k := CreatedSource(rest, kept, next + 1, r);
        assert rest[k] == entries[k + 1];
      }
    } else if e.field.None? || Found(e, kept) {
      pre, order, post := CreatedOnce(rest, kept, next, i - 1);
    } else {
      pre, order, post := CreatedOnce(rest, kept, next + 1, i - 1);
      var whole := [NewRow(e, next)] + (pre + [NewRow(entries[i], order)] + post);
      pre := [NewRow(e, next)] + pre;
      assert whole == pre + [NewRow(entries[i], order)] + post;
    }
  }

  lemma {:induction false} CreatedForOthers(entries: seq<Entry>, kept: seq<Row>, next: int, i: nat)
    requires DistinctEntries(entries) && i < |entries| && entries[i].field.Some? && Found(entries[i], kept)
    ensures forall r :: r in Created(entries, kept, next) ==> !About(entries[i], r)
  {
    forall r | r in Created(entries, kept, next) ensures !About(entries[i], r) {
      var k := CreatedSource(entries, kept, next, r);
      assert k != i;
    }
  }

  /** Two rows that no lookup can tell apart. */
  predicate Twins(r: Row, s: Row) {
    r.name == s.name && r.ftype == s.ftype && r.description == s.description && r.caption == s.caption
        && r.order == s.order
  }

  /** The row created for a field, if any, is a twin of a kept one. */
  predicate Clashes(rows: seq<Row>, reported: seq<Reported>, overwrite: bool) {
    var kept := Kept(rows, reported, overwrite);
    exists c, r :: c in Created(Entries(reported, rows), kept, |kept| + 1) && r in kept && Twins(c, r)
  }

  /**
   How many rows the lookup of a field meets in a second run: one, and the twins of the row the first run created
   for it.
   */
  lemma SecondLookup(rows: seq<Row>, reported: seq<Reported>, overwrite: bool, i: nat)
    requires DistinctFields(reported) && !SetAttributes(rows, reported, overwrite).failed && i < |reported|
    requires reported[i].field.Some?
    ensures var after := SetAttributes(rows, reported, overwrite).rows;
            var kept := Kept(rows, reported, overwrite);
            var n := Count(after, Recall(Blank(reported[i]), after));
            && n >= 1
            && (n > 1 <==> exists c, r :: c in Created(Entries(reported, rows), kept, |kept| + 1) && r in kept
                                          && Twins(c, r) && reported[i].field == Some(c.name))
  {
    var kept, entries := Kept(rows, reported, overwrite), Entries(reported, rows);
    var created, blank := Created(entries, kept, |kept| + 1), Blank(reported[i]);
    var e := Recall(blank, rows);
    RunShape(rows, reported, overwrite);
    EntriesDistinct(reported, rows);
    EntryAt(reported, rows, i);
    assert entries[i] == e && e in entries;
    RecallConcat(blank, kept, created);
    if Found(e, kept) {
      CreatedForOthers(entries, kept, |kept| + 1, i);
      assert reported[i] in reported;
      LookupOfFound(rows, kept, created, Keep(reported, overwrite), blank);
      CountSplits(kept, created, e);
      CountSplits(created, [], e);
    } else {
      var pre, order, post := CreatedOnce(entries, kept, |kept| + 1, i);
      LookupOfCreated(kept, blank, e, pre, order, post);
      assert forall c :: c in created ==> c in pre || c == NewRow(e, order) || c in post;
      assert NewRow(e, order) in created;
    }
  }

  lemma LookupOfFound(rows: seq<Row>, kept: seq<Row>, created: seq<Row>, keep: Row -> bool, blank: Entry)
    requires kept == Filter(rows, keep) && forall r :: r in rows && About(blank, r) ==> keep(r)
    requires forall r :: r in created ==> !About(blank, r)
    ensures Recall(Recall(blank, kept), created) == Recall(blank, rows)
  {
    RecallFiltered(blank, rows, keep);
    RecallKeepsField(blank, rows);
    RecallKeepsField(Recall(blank, rows), created);
  }

  /** The entry after the created row: it has that row's texts and order, whatever it recalled before. */
  lemma LookupOfCreated(kept: seq<Row>, blank: Entry, e: Entry, pre: seq<Row>, order: int, post: seq<Row>)
    requires e.field.Some? && e.field == blank.field && e.ftype == blank.ftype && !Found(e, kept)
    requires forall r :: r in pre || r in post ==> !About(e, r)
    ensures var row := NewRow(e, order);
            var after := kept + (pre + [row] + post);
            var n := Count(after, Recall(blank, after));
            n >= 1 && (n > 1 <==> exists r :: r in kept && Twins(row, r))
  {
    var row := NewRow(e, order);
    var created := pre + [row] + post;
    var later := e.(order := order);
    RecallConcat(blank, kept, created);
    RecallConcat(Recall(blank, kept), pre + [row], post);
    RecallConcat(Recall(blank, kept), pre, [row]);
    RecallKeepsField(blank, kept);
    RecallKeepsField(Recall(blank, kept), pre);
    assert [row][1..] == [];
    assert Recall(Recall(blank, kept), pre + [row]) == later;
    RecallKeepsField(later, post);
    CountSplits(kept, created, later);
    CountSplits(pre + [row], post, later);
    CountSplits(pre, [row], later);
    CountSplits(post, [], later);
    FilterCons(row, [], (r: Row) => Matches(later, r));
    assert [row] + [] == [row];
  }

  lemma {:induction false} NothingAdded(p: Progress, entries: seq<Entry>)
    requires !p.failed && forall e :: e in entries && e.field.Some? ==> Count(p.rows, e) >= 1
    ensures AddAll(p, entries).rows == p.rows
    ensures AddAll(p, entries).failed <==> Ambiguous(entries, p.rows)
    decreases |entries|
  {
    if entries != [] {
      var e, rest := entries[0], entries[1..];
      assert entries == [e] + rest && e in entries;
      AmbiguousCons(e, rest, p.rows);
      if e.field.Some? && Count(p.rows, e) > 1 {
        StaysFailed(Add(p, e), rest);
      } else {
        NothingAdded(p, rest);
      }
    }
  }

  /** A table that has every reported field with its type, and no field twice, is left alone. */
  lemma AgreedTableIsFixed(rows: seq<Row>, reported: seq<Reported>)
    requires UniqueNames(rows) && DistinctFields(reported)
    requires TypesUnchanged(rows, reported)
    requires forall name :: HasName(rows, name) <==> IsReported(reported, name)
    ensures SetAttributes(rows, reported, false).rows == rows && !SetAttributes(rows, reported, false).failed
  {
    assert forall r :: r in rows ==> HasName(rows, r.name);
    FilterAll(rows, Keep(reported, false));
    RunSucceeds(rows, reported, false);
    var entries := Entries(reported, rows);
    forall e | e in entries && e.field.Some? ensures Count(rows, e) >= 1 {
      var i :| 0 <= i < |entries| && entries[i] == e;
      EntryAt(reported, rows, i);
      assert reported[i] in reported && IsReported(reported, e.field.value);
      var r :| r in rows && r.name == e.field.value;
      RecallUnique(Blank(reported[i]), rows, r);
      assert Matches(e, r);
      CountSplits(rows, [], e);
    }
    NothingAdded(Progress(rows, |rows| + 1, false), entries);
  }

  /**
   After any run that succeeds, running again without overwriting changes nothing. The second run fails exactly if the
   first created a row that no lookup can tell from a kept one.
   */
  lemma SecondRunChangesNothing(rows: seq<Row>, reported: seq<Reported>, overwrite: bool)
    requires DistinctFields(reported) && !SetAttributes(rows, reported, overwrite).failed
    ensures var after := SetAttributes(rows, reported, overwrite).rows;
            SetAttributes(after, reported, false).rows == after
            && (SetAttributes(after, reported, false).failed <==> Clashes(rows, reported, overwrite))
  {
    var after := SetAttributes(rows, reported, overwrite).rows;
    AllReported(rows, reported, overwrite);
    AllFound(rows, reported, overwrite);
    NothingAdded(Progress(after, |after| + 1, false), Entries(reported, after));
    SecondRunClashes(rows, reported, overwrite);
  }

  lemma AllReported(rows: seq<Row>, reported: seq<Reported>, overwrite: bool)
    requires DistinctFields(reported) && !SetAttributes(rows, reported, overwrite).failed
    ensures var after := SetAttributes(rows, reported, overwrite).rows;
            Kept(after, reported, false) == after
  {
    var after := SetAttributes(rows, reported, overwrite).rows;
    forall r | r in after ensures IsReported(reported, r.name) {
      NamesAgree(rows, reported, overwrite, r.name);
      assert HasName(after, r.name);
    }
    FilterAll(after, Keep(reported, false));
  }

  lemma AllFound(rows: seq<Row>, reported: seq<Reported>, overwrite: bool)
    requires DistinctFields(reported) && !SetAttributes(rows, reported, overwrite).failed
    ensures var after := SetAttributes(rows, reported, overwrite).rows;
            forall e :: e in Entries(reported, after) && e.field.Some? ==> Count(after, e) >= 1
  {
    var after := SetAttributes(rows, reported, overwrite).rows;
    forall e | e in Entries(reported, after) && e.field.Some? ensures Count(after, e) >= 1 {
      var i :| 0 <= i < |reported| && Entries(reported, after)[i] == e;
      EntryAt(reported, after, i);
      SecondLookup(rows, reported, overwrite, i);
    }
  }

  lemma SecondRunClashes(rows: seq<Row>, reported: seq<Reported>, overwrite: bool)
    requires DistinctFields(reported) && !SetAttributes(rows, reported, overwrite).failed
    ensures var after := SetAttributes(rows, reported, overwrite).rows;
            Ambiguous(Entries(reported, after), after) <==> Clashes(rows, reported, overwrite)
  {
    var kept, after := Kept(rows, reported, overwrite), SetAttributes(rows, reported, overwrite).rows;
    var created, entries := Created(Entries(reported, rows), kept, |kept| + 1), Entries(reported, after);
    if Ambiguous(entries, after) {
      var e :| e in entries && e.field.Some? && Count(after, e) > 1;
      var i :| 0 <= i < |entries| && entries[i] == e;
      EntryAt(reported, after, i);
      SecondLookup(rows, reported, overwrite, i);
    }
    if Clashes(rows, reported, overwrite) {
      var c, r :| c in created && r in kept && Twins(c, r);
      var i := CreatedFrom(rows, reported, kept, |kept| + 1, c);
      SecondLookup(rows, reported, overwrite, i);
      EntryAt(reported, after, i);
      assert entries[i] in entries;
    }
  }

  /** From unique names, or after a rebuild, the second run succeeds, whatever types have changed. */
  lemma SecondRunSucceeds(rows: seq<Row>, reported: seq<Reported>, overwrite: bool)
    requires DistinctFields(reported) && (overwrite || UniqueNames(rows))
    ensures var after := SetAttributes(rows, reported, overwrite).rows;
            SetAttributes(after, reported, false).rows == after && !SetAttributes(after, reported, false).failed
  {
    var kept := Kept(rows, reported, overwrite);
    RunSucceeds(rows, reported, overwrite);
    SecondRunChangesNothing(rows, reported, overwrite);
    if overwrite {
      FilterNone(rows, Keep(reported, true));
    }
    forall c, r | c in Created(Entries(reported, rows), kept, |kept| + 1) && r in kept ensures !Twins(c, r) {
      if c.name == r.name {
        var i := CreatedFrom(rows, reported, kept, |kept| + 1, c);
        RecallUnique(Blank(reported[i]), rows, r);
      }
    }
  }

  /**
   The concrete failure: a field doubled by an earlier change of type is reported with its old type again. A run creates
   the third row with display order 3; if the first had that order, the run after it fails.
   */
  lemma TwinsFail(name: string, before: string, now: string, order: int)
    requires before != now && order != 3
    ensures var rows := [Row(name, before, None, None, 3, Visible(before)),
        Row(name, now, None, None, order, Visible(now))];
            var reported := [Reported(Some(name), before)];
            var after := SetAttributes(rows, reported, false);
            !after.failed && SetAttributes(after.rows, reported, false).failed
  {
    var first, second := Row(name, before, None, None, 3, Visible(before)),
        Row(name, now, None, None, order, Visible(now));
    var rows, reported := [first, second], [Reported(Some(name), before)];
    var e := Entry(Some(name), before, None, None, order);
    assert rows[1..] == [second] && [second][1..] == [];
    var seen := Noted(Blank(reported[0]), first);
    assert Noted(seen, second) == e && Recall(seen, [second]) == Recall(e, []);
    assert Recall(Blank(reported[0]), rows) == e;
    assert Entries(reported, rows) == [e];
    assert reported[0] in reported;
    FilterAll(rows, Keep(reported, false));
    FilterTwo(first, second, (r: Row) => Matches(e, r));
    assert Count(rows, e) == 0;
    CountSplits(rows, [], e);
    RunShape(rows, reported, false);
    assert Created([e], rows, 3) == [NewRow(e, 3)] by {
      assert [e][1..] == [];
    }
    assert first in rows && NewRow(e, 3) in [NewRow(e, 3)] && Twins(NewRow(e, 3), first);
    SecondRunChangesNothing(rows, reported, false);
  }
}
