/**
 Recording requests for data over FTP and reading them back
 (geonode/cephgeo/views.py, create_ftp_folder and ftp_request_details; geonode/cephgeo/utils.py, the reports by data
 class).
 Times are seconds of the server's clock.
 */
module FtpLedger {
  import opened Lists
  import opened Text
  import opened CephObjects

  type Objects = map<int, CephObject>

  /** A recorded request; its position in the ledger is its key. */
  datatype Request = Request(name: string, time: real, user: string, size: int, tiles: nat)

  /** One requested object. */
  datatype IndexRow = IndexRow(request: nat, cephId: int)

  datatype Ledger = Ledger(requests: seq<Request>, index: seq<IndexRow>)

  /** One call of the view: who, the cart, and the clock at the rate check, at the naming and at the recording. */
  datatype Attempt = Attempt(user: string, cart: seq<int>, projectionKnown: bool, check: real, naming: real,
      stamp: real)

  // ---- Names ----

  function Minute(t: real): int {
    (t / 60.0).Floor
  }

  /** strftime("ftprequest_%Y-%m-%d_%H%M") over a calendar that prints the day. */
  function RequestName(date: int -> string, t: real): string {
    var m := Minute(t);
    "ftprequest_" + date(m / 1440) + "_" + TwoDigits(m % 1440 / 60) + TwoDigits(m % 60)
  }

  /** The second of a day, from its start. */
  function SecondOf(d: int, h: nat, k: nat, s: real): real {
    86400.0 * d as real + 3600.0 * h as real + 60.0 * k as real + s
  }

  lemma MinuteOf(d: int, h: nat, k: nat, s: real)
    requires h < 24 && k < 60 && 0.0 <= s < 60.0
    ensures Minute(SecondOf(d, h, k, s)) == 1440 * d + 60 * h + k
  {
    var m := 1440 * d + 60 * h + k;
    assert SecondOf(d, h, k, s) == 60.0 * m as real + s;
    assert SecondOf(d, h, k, s) / 60.0 == m as real + s / 60.0 && 0.0 <= s / 60.0 < 1.0;
  }

  /** A name gives the day, then the hour, then the minute, two digits each. */
  lemma NameExactly(date: int -> string, d: int, h: nat, k: nat, s: real, hour: string, minute: string)
    requires h < 24 && k < 60 && 0.0 <= s < 60.0
    requires |hour| == 2 && IsDigit(hour[0]) && IsDigit(hour[1]) && Value(hour) == h
    requires |minute| == 2 && IsDigit(minute[0]) && IsDigit(minute[1]) && Value(minute) == k
    ensures RequestName(date, SecondOf(d, h, k, s)) == "ftprequest_" + date(d) + "_" + hour + minute
  {
    MinuteOf(d, h, k, s);
    ClockOf(d, h, k);
    TwoDigitsOf(hour);
    TwoDigitsOf(minute);
  }

  /** Day, hour and minute are read back from a count of minutes. */
  lemma ClockOf(d: int, h: nat, k: nat)
    requires h < 24 && k < 60
    ensures (1440 * d + 60 * h + k) / 1440 == d
    ensures (1440 * d + 60 * h + k) % 1440 / 60 == h && (1440 * d + 60 * h + k) % 60 == k
  {
    Quotient(1440, d, 60 * h + k);
    Quotient(60, h, k);
    Quotient(60, 24 * d + h, k);
  }

  lemma Quotient(n: nat, q: int, r: nat)
    requires r < n
    ensures (n * q + r) / n == q && (n * q + r) % n == r
  {
    var p := (n * q + r) / n;
    if p > q {
      TimesMonotone(n, q + 1, p);
    } else if p < q {
      TimesMonotone(n, p + 1, q);
    }
  }

  lemma TimesMonotone(n: nat, p: int, q: int)
    requires p <= q
    ensures n * p <= n * q
  {
  }

  /** The labels of the five classes. */
  lemma LabelsExactly(c: DataClass)
    ensures c == Unknown ==> Label(c) == "Unknown Type"
    ensures c == Laz ==> Label(c) == "LAZ"
    ensures c == Dtm ==> Label(c) == "DTM TIF"
    ensures c == Dsm ==> Label(c) == "DSM TIF"
    ensures c == Ortho ==> Label(c) == "Orthophoto"
  {
  }

  /** Different days are printed differently, and without an underscore. */
  ghost predicate Calendar(date: int -> string) {
    (forall d :: '_' !in date(d)) && forall d, e :: date(d) == date(e) ==> d == e
  }

  /** The date and the time of day are read back from a name. */
  lemma NameParts(a: string, b: string, c: string, x: string, y: string, z: string)
    requires '_' !in a && '_' !in x && |b| == |y|
    requires "ftprequest_" + a + "_" + b + c == "ftprequest_" + x + "_" + y + z
    ensures a == x && b == y && c == z
  {
    var p := "ftprequest_";
    assert (p + a + "_" + b + c)[|p|..] == a + ['_'] + (b + c);
    assert (p + x + "_" + y + z)[|p|..] == x + ['_'] + (y + z);
    CutUnique(a, b + c, x, y + z, '_');
    assert b == (b + c)[..|b|] && y == (y + z)[..|y|] && c == (b + c)[|b|..] && z == (y + z)[|y|..];
  }

  lemma MinuteParts(m: int, n: int)
    requires m / 1440 == n / 1440 && m % 1440 / 60 == n % 1440 / 60 && m % 60 == n % 60
    ensures m == n
  {
    assert m % 1440 == m % 1440 / 60 * 60 + m % 60;
    assert n % 1440 == n % 1440 / 60 * 60 + n % 60;
  }

  /** A name tells the minute it was made in. */
  lemma NameTellsMinute(date: int -> string, s: real, t: real)
    requires Calendar(date) && RequestName(date, s) == RequestName(date, t)
    ensures Minute(s) == Minute(t)
  {
    var m, n := Minute(s), Minute(t);
    NameParts(date(m / 1440), TwoDigits(m % 1440 / 60), TwoDigits(m % 60),
              date(n / 1440), TwoDigits(n % 1440 / 60), TwoDigits(n % 60));
    TwoDigitsInjective(m % 1440 / 60, n % 1440 / 60);
    TwoDigitsInjective(m % 60, n % 60);
    MinuteParts(m, n);
  }

  // ---- Recording ----

  predicate AllStored(objects: Objects, cart: seq<int>) {
    forall i :: 0 <= i < |cart| ==> cart[i] in objects
  }

  function CartObjects(objects: Objects, cart: seq<int>): seq<CephObject>
    requires AllStored(objects, cart)
  {
    seq(|cart|, i requires 0 <= i < |cart| => objects[cart[i]])
  }

  function Bytes(objs: seq<CephObject>): int {
    if objs == [] then 0 else Bytes(objs[..|objs| - 1]) + objs[|objs| - 1].size
  }

  /** A request was recorded less than 300 seconds before the check. */
  predicate TooSoon(requests: seq<Request>, check: real) {
    exists r :: r in requests && check - r.time < 300.0
  }

  /** The call records something: not too soon, a known projection, and every object of the cart still exists. */
  predicate Accepted(l: Ledger, objects: Objects, a: Attempt) {
    !TooSoon(l.requests, a.check) && a.projectionKnown && AllStored(objects, a.cart)
  }

  function IndexOf(request: nat, cart: seq<int>): seq<IndexRow> {
    seq(|cart|, i requires 0 <= i < |cart| => IndexRow(request, cart[i]))
  }

  function NewRequest(objects: Objects, date: int -> string, a: Attempt): Request
    requires AllStored(objects, a.cart)
  {
    Request(RequestName(date, a.naming), a.stamp, a.user, Bytes(CartObjects(objects, a.cart)), |a.cart|)
  }

  function Step(l: Ledger, objects: Objects, date: int -> string, a: Attempt): Ledger {
    if !Accepted(l, objects, a) then l
    else Ledger(l.requests + [NewRequest(objects, date, a)], l.index + IndexOf(|l.requests|, a.cart))
  }

  function Label(c: DataClass): string {
    match c
    case Unknown => "Unknown Type"
    case Laz => "LAZ"
    case Dtm => "DTM TIF"
    case Dsm => "DSM TIF"
    case Ortho => "Orthophoto"
  }

  /** The names of the objects of one class, in order. */
  function NamesOf(objs: seq<CephObject>, c: DataClass): seq<string> {
    if objs == [] then []
    else
      var rest, last := NamesOf(objs[..|objs| - 1], c), objs[|objs| - 1];
      if last.kind == c then rest + [last.name] else rest
  }

  /** The table handed to the transfer: for every class that occurs, the names of its objects, and no other entry. */
  ghost predicate GroupsNames(table: map<string, seq<string>>, objs: seq<CephObject>) {
    && (forall c :: Label(c) in table <==> NamesOf(objs, c) != [])
    && (forall c :: Label(c) in table ==> table[Label(c)] == NamesOf(objs, c))
    && (forall k :: k in table ==> exists c :: k == Label(c))
  }

  datatype Outcome = Wait | UnknownProjection | ObjectGone | Sent(names: map<string, seq<string>>, total: int,
      count: nat)

  class FtpDesk {
    var requests: seq<Request>
    var index: seq<IndexRow>
    var objects: Objects
    var carts: map<string, seq<int>>
    const date: int -> string

    constructor (objects: Objects, date: int -> string)
      ensures State() == Fresh(objects) && carts == map[] && this.date == date
    {
      requests, index, carts := [], [], map[];
      this.objects, this.date := objects, date;
    }

    function Get(): Ledger
      reads this
    {
      Ledger(requests, index)
    }

    function State(): Desk
      reads this
    {
      Desk(Get(), objects)
    }

    /** The metadata of an object, written or overwritten. */
    method StoreObject(id: int, stored: CephObject)
      modifies this`objects
      ensures objects.Keys == old(objects).Keys + {id} && objects[id] == stored
      ensures forall j :: j in old(objects) && j != id ==> objects[j] == old(objects)[j]
      ensures State() == Apply(old(State()), date, Store(id, stored))
    {
      objects := objects[id := stored];
    }

    /** Deleting an object takes its index rows along; the requests keep their totals. */
    method DropObject(id: int)
      modifies this`objects, this`index
      ensures State() == Apply(old(State()), date, Drop(id))
      ensures objects == old(objects) - {id} && forall row :: row in index <==> row in old(index) && row.cephId != id
    {
      var all, rows := index, [];
      for i := 0 to |all|
        invariant rows == Without(all[..i], id) && all == old(index) && objects == old(objects)
      {
        assert all[..i + 1] == all[..i] + [all[i]];
        WithoutSnoc(all[..i], all[i], id);
        if all[i].cephId != id {
          rows := rows + [all[i]];
        }
      }
      assert all[..|all|] == all && rows == Without(old(index), id);
      index, objects := rows, objects - {id};
    }

    /** The cart is emptied only when the request has been recorded. */
    method CreateFtpFolder(a: Attempt) returns (r: Outcome)
      requires a.cart == if a.user in carts then carts[a.user] else []
      modifies this
      ensures State() == Apply(old(State()), date, Ask(a))
      ensures r.Wait? <==> exists q :: q in old(requests) && a.check - q.time < 300.0
      ensures r.UnknownProjection? <==> !r.Wait? && !a.projectionKnown
      ensures r.ObjectGone? <==> !r.Wait? && a.projectionKnown && exists id :: id in a.cart && id !in objects
      ensures r.Sent? <==> Accepted(old(Get()), objects, a)
      ensures objects == old(objects) && (!r.Sent? ==> requests == old(requests) && index == old(index))
      ensures r.Sent? ==>
                requests == old(requests) + [Request(RequestName(date, a.naming), a.stamp, a.user, r.total, r.count)]
      ensures r.Sent? ==>
                |index| == |old(index)| + |a.cart| && index[..|old(index)|] == old(index)
                && forall i :: 0 <= i < |a.cart| ==> index[|old(index)| + i] == IndexRow(|old(requests)|, a.cart[i])
      ensures carts == if r.Sent? then old(carts)[a.user := []] else old(carts)
      ensures r.Sent? ==> GroupsNames(r.names, CartObjects(objects, a.cart))
      ensures r.Sent? ==> r.total == Bytes(CartObjects(objects, a.cart)) && r.count == |a.cart|
    {
      CartGone(objects, a.cart);
      if requests != [] {
        var latest := Latest(requests);
        if a.check - latest < 300.0 {
          return Wait;
        }
      }
      if !a.projectionKnown {
        return UnknownProjection;
      }
      var ok, names, total, count := Collect(objects, a.cart);
      if !ok {
        return ObjectGone;
      }
      requests := requests + [Request(RequestName(date, a.naming), a.stamp, a.user, total, count)];
      var rows := [];
      for i := 0 to |a.cart|
        invariant rows == IndexOf(|old(requests)|, a.cart)[..i]
      {
        rows := rows + [IndexRow(|requests| - 1, a.cart[i])];
      }
      index := index + rows;
      carts := carts[a.user := []];
      r := Sent(names, total, count);
    }
  }

  /** FTPRequest.objects.latest('date_time') */
  method Latest(requests: seq<Request>) returns (t: real)
    requires requests != []
    ensures (exists r :: r in requests && r.time == t) && forall r :: r in requests ==> r.time <= t
  {
    t := requests[0].time;
    for i := 0 to |requests|
      invariant exists r :: r in requests && r.time == t
      invariant forall k :: 0 <= k < i ==> requests[k].time <= t
    {
      assert requests[i] in requests;
      if requests[i].time > t {
        t := requests[i].time;
      }
    }
  }

  lemma GroupStep(table: map<string, seq<string>>, objs: seq<CephObject>, o: CephObject)
    requires GroupsNames(table, objs)
    ensures GroupsNames(table[Label(o.kind) := (if Label(o.kind) in table then table[Label(o.kind)]
        else []) + [o.name]], objs + [o])
  {
    var after := table[Label(o.kind) := (if Label(o.kind) in table then table[Label(o.kind)] else []) + [o.name]];
    assert (objs + [o])[..|objs|] == objs;
    forall c ensures Label(c) in after <==> NamesOf(objs + [o], c) != []
      ensures Label(c) in after ==> after[Label(c)] == NamesOf(objs + [o], c)
    {
    }
  }

  lemma CartGone(objects: Objects, cart: seq<int>)
    ensures AllStored(objects, cart) <==> !exists id :: id in cart && id !in objects
  {
    if AllStored(objects, cart) {
      forall id | id in cart ensures id in objects {
        var i :| 0 <= i < |cart| && cart[i] == id;
      }
    } else {
      var i :| 0 <= i < |cart| && cart[i] !in objects;
      var id := cart[i];
      assert id in cart && id !in objects;
    }
  }

  /** The bytes of some objects are the sum of their sizes. */
  lemma {:induction false} BytesIsSum(objs: seq<CephObject>)
    ensures Bytes(objs) == Sum(seq(|objs|, i requires 0 <= i < |objs| => objs[i].size))
  {
    if objs != [] {
      var n := |objs| - 1;
      var init := objs[..n];
      BytesIsSum(init);
      var sizes := seq(n, i requires 0 <= i < n => init[i].size);
      SumAppend(sizes, [objs[n].size]);
      assert seq(|objs|, i requires 0 <= i < |objs| => objs[i].size) == sizes + [objs[n].size];
      assert [objs[n].size][1..] == [];
    }
  }

  /** The names listed under a class are those of the objects of that class, in order. */
  lemma {:induction false} NamesOfExactly(objs: seq<CephObject>, c: DataClass)
    ensures NamesOf(objs, c) == AllNames(Filter(objs, (o: CephObject) => o.kind == c))
  {
    if objs != [] {
      var init, last := objs[..|objs| - 1], objs[|objs| - 1];
      NamesOfExactly(init, c);
      assert objs == init + [last];
      FilterAppend(init, [last], (o: CephObject) => o.kind == c);
      var all := Filter(init, (o: CephObject) => o.kind == c);
      assert Filter([last], (o: CephObject) => o.kind == c) == if last.kind == c then [last] else [];
      assert (all + [last])[..|all|] == all;
      assert all + [] == all;
    }
  }

  lemma {:induction false} AllNamesExactly(objs: seq<CephObject>)
    ensures |AllNames(objs)| == |objs| && forall i :: 0 <= i < |objs| ==> AllNames(objs)[i] == objs[i].name
  {
    if objs != [] {
      AllNamesExactly(objs[..|objs| - 1]);
    }
  }

  lemma CartSnoc(objects: Objects, cart: seq<int>, i: nat)
    requires i < |cart| && AllStored(objects, cart[..i]) && cart[i] in objects
    ensures AllStored(objects, cart[..i + 1])
    ensures CartObjects(objects, cart[..i + 1]) == CartObjects(objects, cart[..i]) + [objects[cart[i]]]
    ensures Bytes(CartObjects(objects, cart[..i + 1])) == Bytes(CartObjects(objects, cart[..i])) + objects[cart[i]].size
  {
    var before, after := CartObjects(objects, cart[..i]), CartObjects(objects, cart[..i + 1]);
    assert after[..i] == before;
  }

  /** The first walk over the cart; false stands for the exception on an object that no longer exists. */
  method Collect(
      objects: Objects, cart: seq<int>) returns (ok: bool, names: map<string, seq<string>>, total: int, count: nat)
    ensures ok <==> AllStored(objects, cart)
    ensures ok ==> total == Bytes(CartObjects(objects, cart)) && count == |cart|
    ensures ok ==> GroupsNames(names, CartObjects(objects, cart))
  {
    names, total, count := map[], 0, 0;
    for i := 0 to |cart|
      invariant count == i && AllStored(objects, cart[..i])
      invariant total == Bytes(CartObjects(objects, cart[..i]))
      invariant GroupsNames(names, CartObjects(objects, cart[..i]))
    {
      if cart[i] !in objects {
        return false, names, total, count;
      }
      var obj := objects[cart[i]];
      CartSnoc(objects, cart, i);
      GroupStep(names, CartObjects(objects, cart[..i]), obj);
      total := total + obj.size;
      count := count + 1;
      if Label(obj.kind) in names {
        names := names[Label(obj.kind) := names[Label(obj.kind)] + [obj.name]];
      } else {
        names := names[Label(obj.kind) := [obj.name]];
      }
    }
    assert cart[..|cart|] == cart;
    ok := true;
  }

  // ---- Runs: requests, and changes to the stored objects in between ----

  datatype Event = Ask(attempt: Attempt) | Store(id: int, stored: CephObject) | Drop(id: int)

  datatype Desk = Desk(ledger: Ledger, objects: Objects)

  function Fresh(objects: Objects): Desk {
    Desk(Ledger([], []), objects)
  }

  /** The index rows of other objects. */
  function Without(index: seq<IndexRow>, id: int): seq<IndexRow> {
    Filter(index, (row: IndexRow) => row.cephId != id)
  }

  lemma WithoutSnoc(index: seq<IndexRow>, row: IndexRow, id: int)
    ensures Without(index + [row], id) == Without(index, id) + if row.cephId != id then [row] else []
  {
    FilterAppend(index, [row], (r: IndexRow) => r.cephId != id);
    assert [row][1..] == [];
  }

  function Apply(d: Desk, date: int -> string, e: Event): Desk {
    match e
    case Ask(a) => d.(ledger := Step(d.ledger, d.objects, date, a))
    case Store(id, stored) => d.(objects := d.objects[id := stored])
    case Drop(id) => Desk(d.ledger.(index := Without(d.ledger.index, id)), d.objects - {id})
  }

  function After(d: Desk, date: int -> string, run: seq<Event>): Desk {
    if run == [] then d else Apply(After(d, date, run[..|run| - 1]), date, run[|run| - 1])
  }

  lemma AfterSnoc(d: Desk, date: int -> string, run: seq<Event>, e: Event)
    ensures After(d, date, run + [e]) == Apply(After(d, date, run), date, e)
  {
    assert (run + [e])[..|run|] == run;
  }

  lemma AfterPrefix(d: Desk, date: int -> string, run: seq<Event>, n: nat)
    requires n < |run|
    ensures After(d, date, run[..n + 1]) == Apply(After(d, date, run[..n]), date, run[n])
  {
    assert run[..n + 1][..n] == run[..n];
  }

  lemma {:induction false} AfterConcat(d: Desk, date: int -> string, run: seq<Event>, more: seq<Event>)
    ensures After(d, date, run + more) == After(After(d, date, run), date, more)
    decreases |more|
  {
    if more == [] {
      assert run + more == run;
    } else {
      var n := |more| - 1;
      assert (run + more)[..|run + more| - 1] == run + more[..n];
      AfterConcat(d, date, run, more[..n]);
    }
  }

  // ---- Names over a run with a clock that does not run backwards ----

  predicate Monotone(run: seq<Event>) {
    && (forall i :: 0 <= i < |run| && run[i].Ask? ==>
        run[i].attempt.check <= run[i].attempt.naming <= run[i].attempt.stamp)
    && (forall i, j :: 0 <= i < j < |run| && run[i].Ask? && run[j].Ask? ==>
        run[i].attempt.stamp <= run[j].attempt.check)
  }

  /**
   Requests come from attempts in order, each named and recorded at least 300 seconds after the one before was
   recorded.
   */
  ghost predicate Spaced(requests: seq<Request>, namings: seq<real>, date: int -> string) {
    && |namings| == |requests|
    && (forall i :: 0 <= i < |requests| ==>
        requests[i].name == RequestName(date, namings[i]) && namings[i] <= requests[i].time)
    && (forall i, j :: 0 <= i < j < |requests| ==> requests[i].time + 300.0 <= namings[j])
  }

  lemma {:induction false} RunIsSpaced(
      objects: Objects, date: int -> string, run: seq<Event>) returns (namings: seq<real>)
    requires Monotone(run)
    ensures Spaced(After(Fresh(objects), date, run).ledger.requests, namings, date)
  {
    namings := [];
    if run != [] {
      var before, e := After(Fresh(objects), date, run[..|run| - 1]), run[|run| - 1];
      namings := RunIsSpaced(objects, date, run[..|run| - 1]);
      if e.Ask? && Accepted(before.ledger, before.objects, e.attempt) {
        var requests, a := before.ledger.requests, e.attempt;
        forall i | 0 <= i < |requests| ensures requests[i].time + 300.0 <= a.naming {
          assert requests[i] in requests && a.check - requests[i].time >= 300.0;
        }
        SpacedSnoc(requests, namings, date, NewRequest(before.objects, date, a), a.naming);
        namings := namings + [a.naming];
      }
    }
  }

  lemma SpacedSnoc(requests: seq<Request>, namings: seq<real>, date: int -> string, r: Request, naming: real)
    requires Spaced(requests, namings, date) && r.name == RequestName(date, naming) && naming <= r.time
    requires forall i :: 0 <= i < |requests| ==> requests[i].time + 300.0 <= naming
    ensures Spaced(requests + [r], namings + [naming], date)
  {
  }

  lemma SpacedNamesDiffer(requests: seq<Request>, namings: seq<real>, date: int -> string, i: nat, j: nat)
    requires Calendar(date) && Spaced(requests, namings, date) && i < j < |requests|
    ensures requests[i].name != requests[j].name
  {
    if requests[i].name == requests[j].name {
      NameTellsMinute(date, namings[i], namings[j]);
    }
  }

  predicate FiveMinutesApart(rs: seq<Request>) {
    forall i, j :: 0 <= i < j < |rs| ==> rs[i].time + 300.0 <= rs[j].time
  }

  predicate NamesDiffer(rs: seq<Request>) {
    forall i, j :: 0 <= i < j < |rs| ==> rs[i].name != rs[j].name
  }

  /** Recorded requests are at least 300 seconds apart and no two of them share a name, over any run. */
  lemma NamesNeverClash(objects: Objects, date: int -> string, run: seq<Event>)
    requires Calendar(date) && Monotone(run)
    ensures FiveMinutesApart(After(Fresh(objects), date, run).ledger.requests)
    ensures NamesDiffer(After(Fresh(objects), date, run).ledger.requests)
  {
    var rs := After(Fresh(objects), date, run).ledger.requests;
    var namings := RunIsSpaced(objects, date, run);
    forall i, j | 0 <= i < j < |rs| ensures rs[i].name != rs[j].name {
      SpacedNamesDiffer(rs, namings, date, i, j);
    }
  }

  // ---- Reading a request back ----

  /** The positions of the requests of that name and user. */
  function Matching(requests: seq<Request>, name: string, user: string): seq<nat> {
    if requests == [] then []
    else
      var n := |requests| - 1;
      var rest := Matching(requests[..n], name, user);
      if requests[n].name == name && requests[n].user == user then rest + [n] else rest
  }

  lemma {:induction false} MatchingPositions(requests: seq<Request>, name: string, user: string)
    ensures forall k :: 0 <= k < |Matching(requests, name, user)| ==>
              Matching(requests, name, user)[k] < |requests|
              && requests[Matching(requests, name, user)[k]].name == name
                  && requests[Matching(requests, name, user)[k]].user == user
    ensures Distinct(Matching(requests, name, user))
  {
    if requests != [] {
      MatchingPositions(requests[..|requests| - 1], name, user);
    }
  }

  lemma MatchingOnce(rs: seq<Request>, name: string, user: string)
    requires NamesDiffer(rs)
    ensures |Matching(rs, name, user)| <= 1
  {
    MatchingPositions(rs, name, user);
    var m := Matching(rs, name, user);
    forall h, k | 0 <= h < |m| && 0 <= k < |m| ensures m[h] == m[k] {
      assert rs[m[h]].name == rs[m[k]].name;
    }
    DistinctCount(m);
    if m != [] {
      Pigeonhole(m, {m[0]});
    }
  }

  /** The lookup of the details page never meets two rows. */
  lemma LookupIsUnambiguous(objects: Objects, date: int -> string, run: seq<Event>, name: string, user: string)
    requires Calendar(date) && Monotone(run)
    ensures |Matching(After(Fresh(objects), date, run).ledger.requests, name, user)| <= 1
  {
    NamesNeverClash(objects, date, run);
    MatchingOnce(After(Fresh(objects), date, run).ledger.requests, name, user);
  }

  /** The objects of a request, in the order of its index rows. */
  function ObjectsOf(index: seq<IndexRow>, request: nat, objects: Objects): seq<CephObject> {
    if index == [] then []
    else
      var rest, last := ObjectsOf(index[..|index| - 1], request, objects), index[|index| - 1];
      if last.request == request && last.cephId in objects then rest + [objects[last.cephId]] else rest
  }

  function IsClass(c: DataClass): CephObject -> bool {
    (o: CephObject) => o.kind == c
  }

  function OfClass(objs: seq<CephObject>, c: DataClass): seq<CephObject> {
    Filter(objs, IsClass(c))
  }

  function BytesOf(objs: seq<CephObject>, c: DataClass): int {
    Bytes(OfClass(objs, c))
  }

  /** get_bytes_by_type and get_tiles_by_type: the rows of the request joined with their objects, then a loop. */
  method ReportByType(
      index: seq<IndexRow>, objects: Objects, request: nat, c: DataClass) returns (tiles: nat, bytes: int)
    ensures tiles == |OfClass(ObjectsOf(index, request, objects), c)|
    ensures bytes == BytesOf(ObjectsOf(index, request, objects), c)
  {
    tiles, bytes := 0, 0;
    for i := 0 to |index|
      invariant tiles == |OfClass(ObjectsOf(index[..i], request, objects), c)|
      invariant bytes == BytesOf(ObjectsOf(index[..i], request, objects), c)
    {
      assert index[..i + 1][..i] == index[..i];
      var row := index[i];
      if row.request == request && row.cephId in objects {
        OfClassSnoc(ObjectsOf(index[..i], request, objects), objects[row.cephId], c);
        if objects[row.cephId].kind == c {
          tiles := tiles + 1;
          bytes := bytes + objects[row.cephId].size;
        }
      }
    }
    assert index[..|index|] == index;
  }

  lemma OfClassSnoc(objs: seq<CephObject>, o: CephObject, c: DataClass)
    ensures OfClass(objs + [o], c) == OfClass(objs, c) + if o.kind == c then [o] else []
    ensures BytesOf(objs + [o], c) == BytesOf(objs, c) + if o.kind == c then o.size else 0
  {
    FilterAppend(objs, [o], IsClass(c));
    if o.kind == c {
      assert Filter([o], IsClass(c)) == [o];
      var all := OfClass(objs, c) + [o];
      assert all[..|all| - 1] == OfClass(objs, c);
    } else {
      assert Filter([o], IsClass(c)) == [];
      assert OfClass(objs, c) + [] == OfClass(objs, c);
    }
  }

  // ---- Conservation ----

  /** The five classes add up to the whole. */
  lemma {:induction false} ClassesAddUp(objs: seq<CephObject>)
    ensures BytesOf(objs, Unknown) + BytesOf(objs, Laz) + BytesOf(objs, Dtm) + BytesOf(objs, Dsm)
        + BytesOf(objs, Ortho) == Bytes(objs)
    ensures |OfClass(objs, Unknown)| + |OfClass(objs, Laz)| + |OfClass(objs, Dtm)| + |OfClass(objs, Dsm)|
        + |OfClass(objs, Ortho)| == |objs|
  {
    if objs != [] {
      var init, last := objs[..|objs| - 1], objs[|objs| - 1];
      assert objs == init + [last];
      ClassesAddUp(init);
      OfClassSnoc(init, last, Unknown);
      OfClassSnoc(init, last, Laz);
      OfClassSnoc(init, last, Dtm);
      OfClassSnoc(init, last, Dsm);
      OfClassSnoc(init, last, Ortho);
    }
  }

  lemma {:induction false} ObjectsOfAppend(index: seq<IndexRow>, more: seq<IndexRow>, request: nat, objects: Objects)
    ensures ObjectsOf(index + more, request, objects)
        == ObjectsOf(index, request, objects) + ObjectsOf(more, request, objects)
  {
    if more == [] {
      assert index + more == index;
    } else {
      var n := |more| - 1;
      assert (index + more)[..|index + more| - 1] == index + more[..n];
      ObjectsOfAppend(index, more[..n], request, objects);
    }
  }

  lemma {:induction false} ObjectsOfNone(index: seq<IndexRow>, request: nat, objects: Objects)
    requires forall row :: row in index ==> row.request != request
    ensures ObjectsOf(index, request, objects) == []
  {
    if index != [] {
      assert index[|index| - 1] in index && forall row :: row in index[..|index| - 1] ==> row in index;
      ObjectsOfNone(index[..|index| - 1], request, objects);
    }
  }

  lemma {:induction false} ObjectsOfCart(request: nat, cart: seq<int>, objects: Objects)
    requires AllStored(objects, cart)
    ensures ObjectsOf(IndexOf(request, cart), request, objects) == CartObjects(objects, cart)
  {
    if cart != [] {
      var init, last := cart[..|cart| - 1], cart[|cart| - 1];
      ObjectsOfCart(request, init, objects);
      assert IndexOf(request, cart)[..|cart| - 1] == IndexOf(request, init);
      assert CartObjects(objects, cart) == CartObjects(objects, init) + [objects[last]];
    }
  }

  /** Index rows are those of requests and of objects that exist. */
  ghost predicate Consistent(d: Desk) {
    forall row :: row in d.ledger.index ==> row.request < |d.ledger.requests| && row.cephId in d.objects
  }

  /** The totals recorded for a request are those of its index rows as they are now. */
  predicate BalancedAt(d: Desk, k: nat)
    requires k < |d.ledger.requests|
  {
    var objs := ObjectsOf(d.ledger.index, k, d.objects);
    d.ledger.requests[k].size == Bytes(objs) && d.ledger.requests[k].tiles == |objs|
  }

  lemma {:induction false} RunConsistent(d: Desk, date: int -> string, run: seq<Event>)
    requires Consistent(d)
    ensures Consistent(After(d, date, run)) && d.ledger.requests <= After(d, date, run).ledger.requests
  {
    if run != [] {
      RunConsistent(d, date, run[..|run| - 1]);
    }
  }

  /** A request is recorded with the totals and with the rows of its cart. */
  lemma RecordingIsBalanced(d: Desk, date: int -> string, a: Attempt)
    requires Consistent(d) && Accepted(d.ledger, d.objects, a)
    ensures var after := Apply(d, date, Ask(a));
            BalancedAt(after, |d.ledger.requests|)
                && ObjectsOf(after.ledger.index, |d.ledger.requests|, d.objects) == CartObjects(d.objects, a.cart)
  {
    RowsOfNewRequest(d.ledger.index, |d.ledger.requests|, a.cart, d.objects);
  }

  lemma RowsOfNewRequest(index: seq<IndexRow>, n: nat, cart: seq<int>, objects: Objects)
    requires AllStored(objects, cart) && forall row :: row in index ==> row.request < n
    ensures ObjectsOf(index + IndexOf(n, cart), n, objects) == CartObjects(objects, cart)
    ensures forall k: nat :: k < n ==> ObjectsOf(index + IndexOf(n, cart), k, objects) == ObjectsOf(index, k, objects)
  {
    ObjectsOfCart(n, cart, objects);
    ObjectsOfNone(index, n, objects);
    ObjectsOfAppend(index, IndexOf(n, cart), n, objects);
    forall k: nat | k < n ensures ObjectsOf(index + IndexOf(n, cart), k, objects) == ObjectsOf(index, k, objects) {
      ObjectsOfAppend(index, IndexOf(n, cart), k, objects);
      ObjectsOfNone(IndexOf(n, cart), k, objects);
      assert ObjectsOf(index, k, objects) + [] == ObjectsOf(index, k, objects);
    }
  }

  // ---- What later events do to a recorded request ----

  /** How many of a request's rows are of an object. */
  function Times(index: seq<IndexRow>, k: nat, id: int): nat {
    if index == [] then 0
    else Times(index[..|index| - 1], k, id) + if index[|index| - 1] == IndexRow(k, id) then 1 else 0
  }

  lemma {:induction false} TimesPositive(index: seq<IndexRow>, k: nat, id: int)
    ensures Times(index, k, id) > 0 <==> IndexRow(k, id) in index
  {
    if index != [] {
      var init, last := index[..|index| - 1], index[|index| - 1];
      TimesPositive(init, k, id);
      assert index == init + [last];
    }
  }

  /** The event changes the size of an object of the request, or deletes one. */
  predicate Disturbs(d: Desk, e: Event, k: nat) {
    match e
    case Ask(_) => false
    case Store(id, stored) => IndexRow(k, id) in d.ledger.index && id in d.objects && stored.size != d.objects[id].size
    case Drop(id) => IndexRow(k, id) in d.ledger.index
  }

  predicate RowsExist(index: seq<IndexRow>, objects: Objects) {
    forall i :: 0 <= i < |index| ==> index[i].cephId in objects
  }

  lemma {:induction false} BytesAfterStore(index: seq<IndexRow>, objects: Objects, k: nat, id: int, stored: CephObject)
    requires RowsExist(index, objects) && id in objects
    ensures var before, after := ObjectsOf(index, k, objects), ObjectsOf(index, k, objects[id := stored]);
            |after| == |before| && Bytes(after)
                == Bytes(before) + Times(index, k, id) * (stored.size - objects[id].size)
  {
    if index != [] {
      var init, last := index[..|index| - 1], index[|index| - 1];
      assert index == init + [last];
      BytesAfterStore(init, objects, k, id, stored);
      OneTimeMore(Times(init, k, id), stored.size - objects[id].size);
    }
  }

  lemma OneTimeMore(t: nat, x: int)
    ensures (t + 1) * x == t * x + x
  {
  }

  lemma {:induction false} StoreOfAnother(index: seq<IndexRow>, objects: Objects, k: nat, id: int, stored: CephObject)
    requires IndexRow(k, id) !in index
    ensures ObjectsOf(index, k, objects[id := stored]) == ObjectsOf(index, k, objects)
  {
    if index != [] {
      var init, last := index[..|index| - 1], index[|index| - 1];
      assert last in index && forall row :: row in init ==> row in index;
      StoreOfAnother(init, objects, k, id, stored);
    }
  }

  lemma {:induction false} CountAfterDrop(index: seq<IndexRow>, objects: Objects, k: nat, id: int)
    requires RowsExist(index, objects)
    ensures |ObjectsOf(Without(index, id), k, objects - {id})| == |ObjectsOf(index, k, objects)| - Times(index, k, id)
    ensures Times(index, k, id) == 0 ==>
        ObjectsOf(Without(index, id), k, objects - {id}) == ObjectsOf(index, k, objects)
  {
    if index != [] {
      var init, last := index[..|index| - 1], index[|index| - 1];
      assert index == init + [last];
      CountAfterDrop(init, objects, k, id);
      WithoutSnoc(init, last, id);
      if last.cephId != id {
      } else {
        assert Without(init, id) + [] == Without(init, id);
      }
    }
  }

  /** A request whose totals are right stays right through an event if and only if the event does not disturb it. */
  lemma EventKeepsExactly(d: Desk, date: int -> string, e: Event, k: nat)
    requires Consistent(d) && k < |d.ledger.requests| && BalancedAt(d, k)
    ensures k < |Apply(d, date, e).ledger.requests|
    ensures BalancedAt(Apply(d, date, e), k) <==> !Disturbs(d, e, k)
  {
    var index := d.ledger.index;
    assert RowsExist(index, d.objects) by {
      assert forall i :: 0 <= i < |index| ==> index[i] in index;
    }
    match e {
      case Ask(a) =>
        if Accepted(d.ledger, d.objects, a) {
          RowsOfNewRequest(index, |d.ledger.requests|, a.cart, d.objects);
        }
      case Store(id, stored) =>
        if IndexRow(k, id) in index {
          StoreOfIndexed(index, d.objects, k, id, stored);
        } else {
          StoreOfAnother(index, d.objects, k, id, stored);
        }
      case Drop(id) =>
        TimesPositive(index, k, id);
        CountAfterDrop(index, d.objects, k, id);
    }
  }

  /** Storing an indexed object again keeps the count, and keeps the bytes exactly if it keeps the size. */
  lemma StoreOfIndexed(index: seq<IndexRow>, objects: Objects, k: nat, id: int, stored: CephObject)
    requires RowsExist(index, objects) && IndexRow(k, id) in index && id in objects
    ensures var before, after := ObjectsOf(index, k, objects), ObjectsOf(index, k, objects[id := stored]);
            |after| == |before| && (Bytes(after) == Bytes(before) <==> stored.size == objects[id].size)
  {
    TimesPositive(index, k, id);
    BytesAfterStore(index, objects, k, id, stored);
    NoZeroProduct(Times(index, k, id), stored.size - objects[id].size);
  }

  lemma NoZeroProduct(n: nat, x: int)
    requires n > 0
    ensures n * x == 0 <==> x == 0
  {
  }

  predicate AlwaysBalanced(d: Desk, date: int -> string, run: seq<Event>, k: nat) {
    forall n :: 0 <= n <= |run| ==>
        k < |After(d, date, run[..n]).ledger.requests| && BalancedAt(After(d, date, run[..n]), k)
  }

  predicate NeverDisturbed(d: Desk, date: int -> string, run: seq<Event>, k: nat) {
    forall n :: 0 <= n < |run| ==> !Disturbs(After(d, date, run[..n]), run[n], k)
  }

  lemma {:induction false} BalancedUpTo(d: Desk, date: int -> string, run: seq<Event>, k: nat, n: nat)
    requires Consistent(d) && k < |d.ledger.requests| && BalancedAt(d, k) && NeverDisturbed(d, date, run, k)
    requires n <= |run|
    ensures k < |After(d, date, run[..n]).ledger.requests| && BalancedAt(After(d, date, run[..n]), k)
  {
    if n > 0 {
      BalancedUpTo(d, date, run, k, n - 1);
      RunConsistent(d, date, run[..n - 1]);
      EventKeepsExactly(After(d, date, run[..n - 1]), date, run[n - 1], k);
      AfterPrefix(d, date, run, n - 1);
    }
  }

  /** The totals of a request are right at every moment of a run if and only if no event of it disturbs the request. */
  lemma StaysBalancedExactly(d: Desk, date: int -> string, run: seq<Event>, k: nat)
    requires Consistent(d) && k < |d.ledger.requests| && BalancedAt(d, k)
    ensures AlwaysBalanced(d, date, run, k) <==> NeverDisturbed(d, date, run, k)
  {
    if NeverDisturbed(d, date, run, k) {
      forall n | 0 <= n <= |run| ensures k < |After(d, date, run[..n]).ledger.requests|
          && BalancedAt(After(d, date, run[..n]), k) {
        BalancedUpTo(d, date, run, k, n);
      }
    }
    if AlwaysBalanced(d, date, run, k) {
      forall n | 0 <= n < |run| ensures !Disturbs(After(d, date, run[..n]), run[n], k) {
        assert BalancedAt(After(d, date, run[..n]), k) && BalancedAt(After(d, date, run[..n + 1]), k);
        RunConsistent(d, date, run[..n]);
        EventKeepsExactly(After(d, date, run[..n]), date, run[n], k);
        AfterPrefix(d, date, run, n);
      }
    }
  }

  /**
   From its recording on, in whatever run, the totals of a request are right as long as nothing disturbs it, and no
   longer.
   */
  lemma RequestConservedExactly(objects: Objects, date: int -> string, run: seq<Event>, a: Attempt, later: seq<Event>)
    requires var d := After(Fresh(objects), date, run); Accepted(d.ledger, d.objects, a)
    ensures var k := |After(Fresh(objects), date, run).ledger.requests|;
            var d := After(Fresh(objects), date, run + [Ask(a)]);
            AlwaysBalanced(d, date, later, k) <==> NeverDisturbed(d, date, later, k)
  {
    var d := After(Fresh(objects), date, run);
    RunConsistent(Fresh(objects), date, run);
    AfterSnoc(Fresh(objects), date, run, Ask(a));
    RecordingIsBalanced(d, date, a);
    StaysBalancedExactly(Apply(d, date, Ask(a)), date, later, |d.ledger.requests|);
  }

  /** The concrete failure: an object of a request is stored again with another size. */
  lemma UpdateBreaksTotals(date: int -> string, o: CephObject, size: int, a: Attempt)
    requires size != o.size && a.cart == [1] && a.projectionKnown
    ensures var d := After(Fresh(map[]), date, [Store(1, o), Ask(a), Store(1, o.(size := size))]);
            |d.ledger.requests| == 1 && !BalancedAt(d, 0)
  {
    var d0, first := Fresh(map[]), Store(1, o);
    var d1 := Apply(d0, date, first);
    AfterSnoc(d0, date, [], first);
    AfterSnoc(d0, date, [first], Ask(a));
    AfterSnoc(d0, date, [first, Ask(a)], Store(1, o.(size := size)));
    assert [] + [first] == [first] && [first] + [Ask(a)] == [first, Ask(a)];
    assert [first, Ask(a)] + [Store(1, o.(size := size))] == [first, Ask(a), Store(1, o.(size := size))];
    assert Accepted(d1.ledger, d1.objects, a);
    RecordingIsBalanced(d1, date, a);
    var d2 := Apply(d1, date, Ask(a));
    assert IndexOf(0, [1])[0] == IndexRow(0, 1) && d2.ledger.index == [] + IndexOf(0, [1]);
    EventKeepsExactly(d2, date, Store(1, o.(size := size)), 0);
  }

  /**
   The report by the four named classes falls short of the recorded totals by exactly the unknown class, if and
   only if the totals are right.
   */
  lemma ReportConservesExactly(d: Desk, k: nat)
    requires k < |d.ledger.requests|
    ensures var objs := ObjectsOf(d.ledger.index, k, d.objects);
            BalancedAt(d, k) <==>
            && BytesOf(objs, Laz) + BytesOf(objs, Dtm) + BytesOf(objs, Dsm) + BytesOf(objs, Ortho)
                == d.ledger.requests[k].size - BytesOf(objs, Unknown)
            && |OfClass(objs, Laz)| + |OfClass(objs, Dtm)| + |OfClass(objs, Dsm)| + |OfClass(objs, Ortho)|
                == d.ledger.requests[k].tiles - |OfClass(objs, Unknown)|
  {
    ClassesAddUp(ObjectsOf(d.ledger.index, k, d.objects));
  }

  lemma {:induction false} MatchingComplete(requests: seq<Request>, name: string, user: string, k: nat)
    requires k < |requests| && requests[k].name == name && requests[k].user == user
    ensures k in Matching(requests, name, user)
  {
    var n := |requests| - 1;
    if k < n {
      MatchingComplete(requests[..n], name, user, k);
    }
  }

  /** A recorded request is the one the details page finds under its name and user, after whatever later events. */
  lemma RecordedIsFound(objects: Objects, date: int -> string, run: seq<Event>, a: Attempt, later: seq<Event>)
    requires Calendar(date) && Monotone(run + [Ask(a)] + later)
    requires var d := After(Fresh(objects), date, run); Accepted(d.ledger, d.objects, a)
    ensures var d := After(Fresh(objects), date, run);
            var end := After(Fresh(objects), date, run + [Ask(a)] + later);
            && |d.ledger.requests| < |end.ledger.requests|
            && Matching(end.ledger.requests, RequestName(date, a.naming), a.user) == [|d.ledger.requests|]
            && end.ledger.requests[|d.ledger.requests|] == NewRequest(d.objects, date, a)
  {
    var d, whole := After(Fresh(objects), date, run), run + [Ask(a)] + later;
    var requests, k := After(Fresh(objects), date, whole).ledger.requests, |d.ledger.requests|;
    RecordStays(objects, date, run, a, later);
    assert requests[k] == (d.ledger.requests + [NewRequest(d.objects, date, a)])[k];
    LookupIsUnambiguous(objects, date, whole, RequestName(date, a.naming), a.user);
    OnlyMatch(requests, RequestName(date, a.naming), a.user, k);
  }

  lemma OnlyMatch(requests: seq<Request>, name: string, user: string, k: nat)
    requires k < |requests| && requests[k].name == name && requests[k].user == user
    requires |Matching(requests, name, user)| <= 1
    ensures Matching(requests, name, user) == [k]
  {
    MatchingComplete(requests, name, user, k);
  }

  lemma RecordStays(objects: Objects, date: int -> string, run: seq<Event>, a: Attempt, later: seq<Event>)
    requires var d := After(Fresh(objects), date, run); Accepted(d.ledger, d.objects, a)
    ensures var d := After(Fresh(objects), date, run);
            d.ledger.requests + [NewRequest(d.objects, date, a)] <= After(Fresh(objects), date, run + [Ask(a)]
                + later).ledger.requests
  {
    var d := After(Fresh(objects), date, run);
    RunConsistent(Fresh(objects), date, run);
    AfterSnoc(Fresh(objects), date, run, Ask(a));
    AfterConcat(Fresh(objects), date, run + [Ask(a)], later);
    RunConsistent(Apply(d, date, Ask(a)), date, later);
  }

  function AllNames(objs: seq<CephObject>): seq<string> {
    if objs == [] then [] else AllNames(objs[..|objs| - 1]) + [objs[|objs| - 1].name]
  }

  /** The lists handed to the transfer hold the cart's names, each once per object and under its own class. */
  lemma {:induction false} NamesAreConserved(objs: seq<CephObject>)
    ensures multiset(NamesOf(objs, Unknown)) + multiset(NamesOf(objs, Laz)) + multiset(NamesOf(objs, Dtm))
            + multiset(NamesOf(objs, Dsm)) + multiset(NamesOf(objs, Ortho))
         == multiset(AllNames(objs))
  {
    if objs != [] {
      NamesAreConserved(objs[..|objs| - 1]);
    }
  }

  /** The details page: the request and its objects, or an error unless exactly one request has that name and user. */
  method RequestDetails(d: Desk, name: string, user: string) returns (r: Option<(Request, seq<CephObject>)>)
    ensures r.Some? <==> |Matching(d.ledger.requests, name, user)| == 1
    ensures r.Some? ==> exists k: nat ::
        k < |d.ledger.requests| && r.value == (d.ledger.requests[k], ObjectsOf(d.ledger.index, k, d.objects))
                                         && d.ledger.requests[k].name == name && d.ledger.requests[k].user == user
                                         && (BalancedAt(d, k) ==> |r.value.1| == r.value.0.tiles)
  {
    var found := Matching(d.ledger.requests, name, user);
    if |found| != 1 {
      return None;
    }
    MatchingPositions(d.ledger.requests, name, user);
    var index, k, objs := d.ledger.index, found[0], [];
    for i := 0 to |index|
      invariant objs == ObjectsOf(index[..i], k, d.objects)
    {
      assert index[..i + 1][..i] == index[..i];
      if index[i].request == k && index[i].cephId in d.objects {
        objs := objs + [d.objects[index[i].cephId]];
      }
    }
    assert index[..|index|] == index;
    r := Some((d.ledger.requests[k], objs));
  }
}
