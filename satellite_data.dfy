/**
 The satellite record and the fixed catalog of geostationary satellites
 (src/lib/satellite-data.ts).
 */
module SatelliteData {

  datatype Option<T> = None | Some(value: T)

  datatype Status = Operational | Spare | Other

  /**
   A catalog entry. `elevation` is absent in the catalog; the visibility
   filter sets it for the records it returns.
   */
  datatype Satellite = Satellite(
    noradId: int,
    name: string,
    operator: string,
    band: string,
    slotLongitude: real,
    status: Status,
    elevation: Option<real>)

  /** The catalog, in the source's order (North America, South America, EMEA, Asia-Pacific). */
  const Satellites: seq<Satellite> := [
    Satellite(41866, "GOES 16 (East)", "NOAA/NASA", "Ka/S/UHF", -75.2, Operational, None),
    Satellite(44876, "GOES 18 (West)", "NOAA/NASA", "Ka/S/UHF", -137.2, Operational, None),
    Satellite(28882, "Anik F1R", "Telesat", "Ku/C", -107.3, Operational, None),
    Satellite(39258, "Sirius XM-6", "Sirius XM", "S", -116.1, Operational, None),
    Satellite(26916, "DirecTV-5", "DirecTV", "Ku", -110.0, Spare, None),
    Satellite(36516, "Galaxy 17", "Intelsat", "Ku/C", -91.0, Operational, None),
    Satellite(40942, "Echostar 19", "Dish Network", "Ka", -97.1, Operational, None),
    Satellite(39282, "Star One C4", "Embratel", "Ku/C", -70.0, Operational, None),
    Satellite(39078, "Amazonas 3", "Hispamar", "Ku/Ka/C", -61.0, Operational, None),
    Satellite(41382, "Meteosat 11 (IODC)", "EUMETSAT", "L", 45.5, Operational, None),
    Satellite(38749, "Meteosat 10", "EUMETSAT", "L", 9.5, Operational, None),
    Satellite(29642, "Meteosat 9", "EUMETSAT", "L", 3.5, Operational, None),
    Satellite(33287, "Astra 2F", "SES", "Ku", 28.2, Operational, None),
    Satellite(37851, "Eutelsat 16A", "Eutelsat", "Ku/Ka", 16.0, Operational, None),
    Satellite(28628, "Arabsat-2B", "Arabsat", "C/Ku", 30.5, Spare, None),
    Satellite(42931, "Himawari 9", "JMA", "Ka/S/UHF", 140.7, Operational, None),
    Satellite(37233, "INSAT-4G (GSAT-8)", "ISRO", "Ku/C", 55.0, Operational, None),
    Satellite(38046, "Koreasat 5A", "KT Sat", "Ku", 113.0, Operational, None),
    Satellite(40313, "LaoSat 1", "LAOSAT", "C/Ku", 128.5, Operational, None),
    Satellite(25924, "Optus C1", "Optus", "Ku/Ka", 156.0, Operational, None)
  ]

  /** No two entries share a NORAD catalog number. */
  ghost predicate DistinctIds(catalog: seq<Satellite>) {
    forall i, j :: 0 <= i < j < |catalog| ==> catalog[i].noradId != catalog[j].noradId
  }

  /** Every slot is a longitude in [-180, 180]. */
  ghost predicate SlotsInRange(catalog: seq<Satellite>) {
    forall i :: 0 <= i < |catalog| ==> -180.0 <= catalog[i].slotLongitude <= 180.0
  }

  /** No entry carries an elevation. */
  ghost predicate Unannotated(catalog: seq<Satellite>) {
    forall i :: 0 <= i < |catalog| ==> catalog[i].elevation == None
  }

  lemma CatalogSize()
    ensures |Satellites| == 20
  {
  }

  lemma CatalogIdsDistinct()
    ensures DistinctIds(Satellites)
  {
    var ids: seq<int> := [41866, 44876, 28882, 39258, 26916, 36516, 40942, 39282, 39078, 41382, 38749, 29642, 33287, 37851, 28628, 42931, 37233, 38046, 40313, 25924];
    assert forall k :: 0 <= k < |Satellites| ==> Satellites[k].noradId == ids[k];
    assert forall i, j :: 0 <= i < j < |ids| ==> ids[i] != ids[j];
  }

  lemma CatalogSlotsInRange()
    ensures SlotsInRange(Satellites)
  {
  }

  lemma CatalogUnannotated()
    ensures Unannotated(Satellites)
  {
  }

  /** Every entry is operational or spare; the spares are entries 4 and 14, DirecTV-5 and Arabsat-2B. */
  lemma CatalogStatuses()
    ensures forall i :: 0 <= i < |Satellites| ==> Satellites[i].status != Other
    ensures forall i :: 0 <= i < |Satellites| ==> (Satellites[i].status == Spare <==> i == 4 || i == 14)
    ensures Satellites[4].name == "DirecTV-5" && Satellites[14].name == "Arabsat-2B"
  {
  }
}
