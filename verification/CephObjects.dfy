/** The catalogue of stored data files (geonode/cephgeo/models.py). */
module CephObjects {

  datatype DataClass = Unknown | Laz | Dtm | Dsm | Ortho

  datatype CephObject = CephObject(name: string, size: int, kind: DataClass)
}
