/** The fingerprint database: records keyed by fingerprint id in insertion order, the operation
    that records one more sighting of an image, and clearing. */
module Store {
  import opened Optional

  /** One place an image was seen. */
  datatype Location = Location(path: string, filename: string, timestamp: string, size: int)

  /** Everything the database keeps about one fingerprint. */
  datatype Record = Record(
    fingerprint: string,
    originalFilename: string,
    firstSeen: string,
    locations: seq<Location>,
    count: int)

  datatype Entry = Entry(id: string, record: Record)

  /** The part of an image's description that the database reads; the size may be missing. */
  datatype ImageInfo = ImageInfo(path: string, filename: string, fileSize: Option<int>)

  predicate DistinctIds(entries: seq<Entry>)
  {
    forall i, j :: 0 <= i < j < |entries| ==> entries[i].id != entries[j].id
  }

  /** The database as a Python dict holds it: entries in insertion order, each id once. */
  type Db = entries: seq<Entry> | DistinctIds(entries) witness []

  function Ids(db: Db): set<string>
  {
    set e | e in db :: e.id
  }

  /** The length of the record id: the first 16 characters of the hex digest. */
  const IdLength: nat := 16

  /** The record id of a fingerprint: `hexDigest(fp)[:16]`, where `hexDigest` stands for the MD5
      hex digest of the fingerprint text. */
  function FpId(hexDigest: string -> string, fp: string): (id: string)
    ensures |id| == if |hexDigest(fp)| < IdLength then |hexDigest(fp)| else IdLength
    ensures id <= hexDigest(fp)
  {
    var h := hexDigest(fp);
    if |h| <= IdLength then h else h[..IdLength]
  }

  /** The index of the entry with the given id, if any. */
  function Find(entries: seq<Entry>, id: string): (r: Option<nat>)
    ensures r.Some? ==> r.value < |entries| && entries[r.value].id == id
    ensures r.Some? ==> forall i :: 0 <= i < r.value ==> entries[i].id != id
    ensures r.None? <==> forall i :: 0 <= i < |entries| ==> entries[i].id != id
  {
    if |entries| == 0 then None
    else if entries[0].id == id then Some(0)
    else match Find(entries[1..], id)
      case None => None
      case Some(k) => Some(k + 1)
  }

  /** The position of an id in iteration order; `|db|` for an id the database does not hold. */
  function Rank(db: Db, id: string): (k: nat)
    ensures k <= |db|
    ensures k < |db| <==> id in Ids(db)
    ensures k < |db| ==> db[k].id == id
  {
    match Find(db, id)
    case Some(k) => k
    case None => |db|
  }

  /** Each entry's rank is its own index. */
  lemma RankOfEntry(db: Db, k: nat)
    requires k < |db|
    ensures Rank(db, db[k].id) == k
  {
  }

  /** The location entry recorded for a sighting; a missing size reads as 0. */
  function NewLocation(info: ImageInfo, stamp: string): Location
  {
    Location(info.path, info.filename, stamp, info.fileSize.GetOr(0))
  }

  /** One more sighting of a record: its location appended, its count raised by one. */
  function Observe(rec: Record, loc: Location): Record
  {
    rec.(locations := rec.locations + [loc], count := rec.count + 1)
  }

  /** Every record counts exactly its locations. */
  predicate CountsLocations(db: Db)
  {
    forall k :: 0 <= k < |db| ==> db[k].record.count == |db[k].record.locations|
  }

  /** Every record sits under the id of its own fingerprint. */
  ghost predicate KeyedBy(hexDigest: string -> string, db: Db)
  {
    forall k :: 0 <= k < |db| ==> db[k].id == FpId(hexDigest, db[k].record.fingerprint)
  }

  /** `add_to_fingerprint_database`: under the fingerprint's id, create a record with no locations
      and count 0 if the id is new, then append this sighting and count it. `firstSeen` and `stamp`
      are the two `datetime.now()` readings `add_to_fingerprint_database` takes. */
  function AddFingerprint(db: Db, hexDigest: string -> string, fp: string, info: ImageInfo,
                          firstSeen: string, stamp: string): (r: Db)
    ensures Ids(r) == Ids(db) + {FpId(hexDigest, fp)}
    ensures FpId(hexDigest, fp) !in Ids(db) ==>
      r == db + [Entry(FpId(hexDigest, fp),
                       Record(fp, info.filename, firstSeen, [NewLocation(info, stamp)], 1))]
    ensures FpId(hexDigest, fp) in Ids(db) ==>
      var k := Rank(db, FpId(hexDigest, fp));
      && |r| == |db|
      && (forall j :: 0 <= j < |db| && j != k ==> r[j] == db[j])
      && r[k].id == db[k].id
      && r[k].record.fingerprint == db[k].record.fingerprint
      && r[k].record.originalFilename == db[k].record.originalFilename
      && r[k].record.firstSeen == db[k].record.firstSeen
      && r[k].record.locations == db[k].record.locations + [NewLocation(info, stamp)]
      && r[k].record.count == db[k].record.count + 1
    ensures CountsLocations(db) ==> CountsLocations(r)
    ensures KeyedBy(hexDigest, db) ==> KeyedBy(hexDigest, r)
  {
    var id := FpId(hexDigest, fp);
    var loc := NewLocation(info, stamp);
    if Find(db, id).None? then
      var created := Record(fp, info.filename, firstSeen, [], 0);
      assert Observe(created, loc) == Record(fp, info.filename, firstSeen, [loc], 1) by {
        assert [] + [loc] == [loc];
      }
      var r: Db := db + [Entry(id, Observe(created, loc))];
      assert Ids(r) == Ids(db) + {id} by {
        assert forall e :: e in r <==> e in db || e == r[|db|];
      }
      r
    else
      var k := Find(db, id).value;
      var r: Db := db[k := Entry(id, Observe(db[k].record, loc))];
      assert Ids(r) == Ids(db) by {
        forall x | x in Ids(db)
          ensures x in Ids(r)
        {
          var e :| e in db && e.id == x;
          var j :| 0 <= j < |db| && db[j] == e;
          assert r[j].id == x;
        }
      }
      r
  }

  /** Clearing the database from the menu: every record is dropped. */
  function Clear(db: Db): (r: Db)
    ensures forall id :: id !in Ids(r)
  {
    []
  }
}
