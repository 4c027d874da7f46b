/**
 * app/recent/page.tsx: the "recently read" page. It sorts `recent_reads` by
 * time, newest first, keeps one record per manga through a `Map` keyed by
 * manga id, caps the list at 50, fetches the chapters by id and renders one
 * row per record whose chapter came back.
 */
module RecentPage {
  import opened Wrappers
  import opened Seqs
  import opened Strings
  import opened BrowserStorage
  import opened StableSort
  import opened Recent

  /** The page shows at most this many manga. */
  const PageCap: nat := 50

  /** `arr.sort((a, b) => b.at - a.at)`: newest first. */
  function ByAtDesc(e: RecentEntry): Key { (-e.at, 0) }

  // ---------------------------------------------------------------------
  // `new Map(list.map((x) => [x.mangaId, x]))`, then its values in order.

  /** `map.set(x.mangaId, x)`: overwrite in place when the key is there, else append. */
  function MapSet(r: seq<RecentEntry>, x: RecentEntry): seq<RecentEntry> {
    if r == [] then [x]
    else if r[0].mangaId == x.mangaId then [x] + r[1..]
    else [r[0]] + MapSet(r[1..], x)
  }

  /** The values of a `Map` filled from `s` in order. */
  function MapFrom(s: seq<RecentEntry>): seq<RecentEntry> {
    if s == [] then [] else MapSet(MapFrom(s[..|s| - 1]), s[|s| - 1])
  }

  /** Index of the first record of manga `m`, or `|s|` when there is none. */
  function FirstIndex(s: seq<RecentEntry>, m: int): (k: nat)
    ensures k <= |s|
    ensures k < |s| ==> s[k].mangaId == m
    ensures forall j :: 0 <= j < k ==> s[j].mangaId != m
  {
    if s == [] then 0 else if s[0].mangaId == m then 0 else 1 + FirstIndex(s[1..], m)
  }

  /** Index of the last record of manga `m`, or -1 when there is none. */
  function LastIndex(s: seq<RecentEntry>, m: int): (k: int)
    ensures -1 <= k < |s|
    ensures k >= 0 ==> s[k].mangaId == m
    ensures forall j :: k < j < |s| ==> s[j].mangaId != m
  {
    if s == [] then -1 else if s[|s| - 1].mangaId == m then |s| - 1 else LastIndex(s[..|s| - 1], m)
  }

  lemma {:induction false} MapSetShape(r: seq<RecentEntry>, x: RecentEntry)
    ensures FirstIndex(r, x.mangaId) < |r| ==>
      |MapSet(r, x)| == |r| &&
      forall i :: 0 <= i < |r| ==> MapSet(r, x)[i] == if r[i].mangaId == x.mangaId && i == FirstIndex(r, x.mangaId) then x else r[i]
    ensures FirstIndex(r, x.mangaId) == |r| ==> MapSet(r, x) == r + [x]
  {
    if r != [] && r[0].mangaId != x.mangaId {
      MapSetShape(r[1..], x);
    }
  }

  lemma {:induction false} FirstIndexAppend(s: seq<RecentEntry>, x: RecentEntry, m: int)
    ensures FirstIndex(s + [x], m) ==
      if FirstIndex(s, m) < |s| then FirstIndex(s, m) else if x.mangaId == m then |s| else |s| + 1
  {
    if s != [] && s[0].mangaId != m {
      assert (s + [x])[1..] == s[1..] + [x];
      FirstIndexAppend(s[1..], x, m);
    }
  }

  /** Every manga of `s` has a value in `r`. */
  predicate Covers(s: seq<RecentEntry>, r: seq<RecentEntry>) {
    forall k :: 0 <= k < |s| ==> FirstIndex(r, s[k].mangaId) < |r|
  }

  /** Every value in `r` is the last record of its manga in `s`. */
  predicate LastValues(s: seq<RecentEntry>, r: seq<RecentEntry>) {
    forall i :: 0 <= i < |r| ==> 0 <= LastIndex(s, r[i].mangaId) && r[i] == s[LastIndex(s, r[i].mangaId)]
  }

  /** The values of `r` follow the order of their manga's first record in `s`. */
  predicate FirstOrder(s: seq<RecentEntry>, r: seq<RecentEntry>) {
    forall i, j :: 0 <= i < j < |r| ==> FirstIndex(s, r[i].mangaId) < FirstIndex(s, r[j].mangaId)
  }

  predicate MapFacts(s: seq<RecentEntry>, r: seq<RecentEntry>) {
    OnePerManga(r) && Covers(s, r) && LastValues(s, r) && FirstOrder(s, r)
  }

  /** A value's manga occurs in `s`, so its first record is inside `s`. */
  lemma LastValueOccurs(s: seq<RecentEntry>, r: seq<RecentEntry>, i: int)
    requires LastValues(s, r) && 0 <= i < |r|
    ensures FirstIndex(s, r[i].mangaId) < |s|
  {
    var l := LastIndex(s, r[i].mangaId);
    assert s[l].mangaId == r[i].mangaId;
  }

  /** `map.set` on a manga that is already there: the values change in place. */
  lemma {:induction false} StepPresent(s': seq<RecentEntry>, x: RecentEntry)
    requires MapFacts(s', MapFrom(s'))
    requires FirstIndex(MapFrom(s'), x.mangaId) < |MapFrom(s')|
    ensures MapFacts(s' + [x], MapFrom(s' + [x]))
  {
    var s, r' := s' + [x], MapFrom(s');
    assert s[..|s| - 1] == s' && s[|s| - 1] == x;
    var r := MapFrom(s);
    assert r == MapSet(r', x);
    MapSetShape(r', x);
    var f := FirstIndex(r', x.mangaId);
    assert forall i :: 0 <= i < |r| ==> r[i].mangaId == r'[i].mangaId;
    PresentOne(r', r);
    PresentCovers(s', x, r', r);
    PresentLast(s', x, r', r, f);
    PresentOrder(s', x, r', r);
  }

  lemma PresentOne(r': seq<RecentEntry>, r: seq<RecentEntry>)
    requires OnePerManga(r') && |r| == |r'|
    requires forall i :: 0 <= i < |r| ==> r[i].mangaId == r'[i].mangaId
    ensures OnePerManga(r)
  {
    forall i, j | 0 <= i < j < |r| ensures r[i].mangaId != r[j].mangaId {
      assert r'[i].mangaId != r'[j].mangaId;
    }
  }

  lemma PresentCovers(s': seq<RecentEntry>, x: RecentEntry, r': seq<RecentEntry>, r: seq<RecentEntry>)
    requires Covers(s', r') && |r| == |r'| && FirstIndex(r', x.mangaId) < |r'|
    requires forall i :: 0 <= i < |r| ==> r[i].mangaId == r'[i].mangaId
    ensures Covers(s' + [x], r)
  {
    var s := s' + [x];
    forall k | 0 <= k < |s| ensures FirstIndex(r, s[k].mangaId) < |r| {
      var m := s[k].mangaId;
      var q := if k < |s'| then FirstIndex(r', m) else FirstIndex(r', x.mangaId);
      if k < |s'| { assert s[k] == s'[k]; }
      assert q < |r| && r[q].mangaId == m;
    }
  }

  lemma PresentLast(s': seq<RecentEntry>, x: RecentEntry, r': seq<RecentEntry>, r: seq<RecentEntry>, f: nat)
    requires LastValues(s', r') && OnePerManga(r') && f == FirstIndex(r', x.mangaId) < |r'|
    requires |r| == |r'| && forall i :: 0 <= i < |r'| ==> r[i] == if r'[i].mangaId == x.mangaId && i == f then x else r'[i]
    ensures LastValues(s' + [x], r)
  {
    var s := s' + [x];
    forall i | 0 <= i < |r| ensures 0 <= LastIndex(s, r[i].mangaId) && r[i] == s[LastIndex(s, r[i].mangaId)] {
      if r'[i].mangaId == x.mangaId {
        assert i == f by { assert r'[i].mangaId == r'[f].mangaId; }
        assert r[i] == x;
        LastValueNew(s', x);
      } else {
        assert r[i] == r'[i];
        LastValueKept(s', x, r'[i]);
      }
    }
  }

  lemma LastIndexSnoc(s': seq<RecentEntry>, x: RecentEntry, m: int)
    ensures LastIndex(s' + [x], m) == if x.mangaId == m then |s'| else LastIndex(s', m)
  {
    assert (s' + [x])[..|s'|] == s';
  }

  /** The appended record is the last one of its manga. */
  lemma LastValueNew(s': seq<RecentEntry>, x: RecentEntry)
    ensures LastIndex(s' + [x], x.mangaId) == |s'| && (s' + [x])[|s'|] == x
  {
    LastIndexSnoc(s', x, x.mangaId);
  }

  /** Appending a record of another manga keeps a manga's last record. */
  lemma LastValueKept(s': seq<RecentEntry>, x: RecentEntry, e: RecentEntry)
    requires e.mangaId != x.mangaId
    requires 0 <= LastIndex(s', e.mangaId) && e == s'[LastIndex(s', e.mangaId)]
    ensures 0 <= LastIndex(s' + [x], e.mangaId) && e == (s' + [x])[LastIndex(s' + [x], e.mangaId)]
  {
    LastIndexSnoc(s', x, e.mangaId);
  }

  lemma PresentOrder(s': seq<RecentEntry>, x: RecentEntry, r': seq<RecentEntry>, r: seq<RecentEntry>)
    requires FirstOrder(s', r') && LastValues(s', r') && |r| == |r'|
    requires forall i :: 0 <= i < |r| ==> r[i].mangaId == r'[i].mangaId
    ensures FirstOrder(s' + [x], r)
  {
    forall i, j | 0 <= i < j < |r| ensures FirstIndex(s' + [x], r[i].mangaId) < FirstIndex(s' + [x], r[j].mangaId) {
      LastValueOccurs(s', r', i);
      LastValueOccurs(s', r', j);
      FirstIndexAppend(s', x, r[i].mangaId);
      FirstIndexAppend(s', x, r[j].mangaId);
    }
  }

  /** `map.set` on a new manga: the value is appended. */
  lemma {:induction false} StepAbsent(s': seq<RecentEntry>, x: RecentEntry)
    requires MapFacts(s', MapFrom(s'))
    requires FirstIndex(MapFrom(s'), x.mangaId) == |MapFrom(s')|
    ensures MapFacts(s' + [x], MapFrom(s' + [x]))
  {
    var s, r' := s' + [x], MapFrom(s');
    assert s[..|s| - 1] == s' && s[|s| - 1] == x;
    var r := MapFrom(s);
    assert r == MapSet(r', x);
    MapSetShape(r', x);
    assert FirstIndex(s', x.mangaId) == |s'| by {
      forall k | 0 <= k < |s'| ensures s'[k].mangaId != x.mangaId {
        assert FirstIndex(r', s'[k].mangaId) < |r'|;
      }
    }
    AbsentOne(r', x);
    AbsentCovers(s', x, r');
    AbsentLast(s', x, r');
    AbsentOrder(s', x, r');
  }

  lemma AbsentOne(r': seq<RecentEntry>, x: RecentEntry)
    requires OnePerManga(r') && FirstIndex(r', x.mangaId) == |r'|
    ensures OnePerManga(r' + [x])
  {
    var r := r' + [x];
    forall i, j | 0 <= i < j < |r| ensures r[i].mangaId != r[j].mangaId {
      if j < |r'| { assert r[i] == r'[i] && r[j] == r'[j]; }
      else { assert r[i] == r'[i]; }
    }
  }

  lemma AbsentCovers(s': seq<RecentEntry>, x: RecentEntry, r': seq<RecentEntry>)
    requires Covers(s', r')
    ensures Covers(s' + [x], r' + [x])
  {
    var s, r := s' + [x], r' + [x];
    forall k | 0 <= k < |s| ensures FirstIndex(r, s[k].mangaId) < |r| {
      var m := s[k].mangaId;
      if k < |s'| {
        assert s[k] == s'[k];
        var q := FirstIndex(r', m);
        assert r[q] == r'[q];
      } else {
        assert r[|r'|] == x;
      }
    }
  }

  lemma AbsentLast(s': seq<RecentEntry>, x: RecentEntry, r': seq<RecentEntry>)
    requires LastValues(s', r') && FirstIndex(r', x.mangaId) == |r'|
    ensures LastValues(s' + [x], r' + [x])
  {
    var s, r := s' + [x], r' + [x];
    forall i | 0 <= i < |r| ensures 0 <= LastIndex(s, r[i].mangaId) && r[i] == s[LastIndex(s, r[i].mangaId)] {
      if i < |r'| {
        assert r[i] == r'[i];
        assert r'[i].mangaId != x.mangaId;
        LastValueKept(s', x, r'[i]);
      } else {
        LastValueNew(s', x);
      }
    }
  }

  lemma AbsentOrder(s': seq<RecentEntry>, x: RecentEntry, r': seq<RecentEntry>)
    requires FirstOrder(s', r') && LastValues(s', r') && FirstIndex(s', x.mangaId) == |s'|
    ensures FirstOrder(s' + [x], r' + [x])
  {
    var r := r' + [x];
    forall i, j | 0 <= i < j < |r| ensures FirstIndex(s' + [x], r[i].mangaId) < FirstIndex(s' + [x], r[j].mangaId) {
      AbsentOrderPair(s', x, r', i, j);
    }
  }

  lemma AbsentOrderPair(s': seq<RecentEntry>, x: RecentEntry, r': seq<RecentEntry>, i: nat, j: nat)
    requires FirstOrder(s', r') && LastValues(s', r') && FirstIndex(s', x.mangaId) == |s'|
    requires i < j <= |r'|
    ensures var r := r' + [x]; FirstIndex(s' + [x], r[i].mangaId) < FirstIndex(s' + [x], r[j].mangaId)
  {
    var r := r' + [x];
    var mi, mj := r[i].mangaId, r[j].mangaId;
    assert mi == r'[i].mangaId;
    LastValueOccurs(s', r', i);
    FirstIndexAppend(s', x, mi);
    FirstIndexAppend(s', x, mj);
    if j < |r'| {
      assert mj == r'[j].mangaId;
      LastValueOccurs(s', r', j);
    } else {
      assert mj == x.mangaId;
    }
  }

  /**
   * The Map model: one value per manga; every manga of `s` has a value; each
   * value is the manga's LAST record in `s`; the values follow the order of
   * each manga's FIRST record.
   */
  lemma {:induction false} MapFromFacts(s: seq<RecentEntry>)
    ensures MapFacts(s, MapFrom(s))
    decreases |s|
  {
    if s != [] {
      var s', x := s[..|s| - 1], s[|s| - 1];
      assert s == s' + [x];
      MapFromFacts(s');
      if FirstIndex(MapFrom(s'), x.mangaId) < |MapFrom(s')| {
        StepPresent(s', x);
      } else {
        StepAbsent(s', x);
      }
    }
  }

  // ---------------------------------------------------------------------
  // The list the page asks the database about.

  /** Sorted newest first, one record per manga through the Map, first 50 of them. */
  function Uniq(arr: seq<RecentEntry>): seq<RecentEntry> {
    Take(MapFrom(SortBy(arr, ByAtDesc)), PageCap)
  }

  /** One fact of `MapFromFacts` at a time: the value at `i` is its manga's last record. */
  lemma MapLast(s: seq<RecentEntry>, i: nat)
    requires i < |MapFrom(s)|
    ensures 0 <= LastIndex(s, MapFrom(s)[i].mangaId) && MapFrom(s)[i] == s[LastIndex(s, MapFrom(s)[i].mangaId)]
  {
    MapFromFacts(s);
  }

  /** One fact of `MapFromFacts` at a time: the manga of record `k` has a value. */
  lemma MapCovers(s: seq<RecentEntry>, k: nat)
    requires k < |s|
    ensures FirstIndex(MapFrom(s), s[k].mangaId) < |MapFrom(s)|
  {
    MapFromFacts(s);
  }

  /** One fact of `MapFromFacts` at a time: values follow the order of first records. */
  lemma MapOrder(s: seq<RecentEntry>, i: nat, j: nat)
    requires i < j < |MapFrom(s)|
    ensures FirstIndex(s, MapFrom(s)[i].mangaId) < FirstIndex(s, MapFrom(s)[j].mangaId)
  {
    MapFromFacts(s);
  }

  /** The sorted copy, one pair at a time: an earlier record is at least as recent. */
  lemma SortedPair(arr: seq<RecentEntry>, a: nat, b: nat)
    requires a <= b < |SortBy(arr, ByAtDesc)|
    ensures SortBy(arr, ByAtDesc)[a].at >= SortBy(arr, ByAtDesc)[b].at
  {
    var t := SortBy(arr, ByAtDesc);
    SortBySortedPerm(arr, ByAtDesc);
    if a < b {
      assert KeyLe(ByAtDesc(t[a]), ByAtDesc(t[b]));
    }
  }

  /** A record of the sorted copy is a record of `arr`. */
  lemma SortedMember(arr: seq<RecentEntry>, a: nat)
    requires a < |SortBy(arr, ByAtDesc)|
    ensures SortBy(arr, ByAtDesc)[a] in arr
  {
    var t := SortBy(arr, ByAtDesc);
    SortBySortedPerm(arr, ByAtDesc);
    assert t[a] in multiset(t);
  }

  lemma SortedAtDesc(t: seq<RecentEntry>)
    requires SortedBy(t, ByAtDesc)
    ensures forall i, j :: 0 <= i < j < |t| ==> t[i].at >= t[j].at
  {
    forall i, j | 0 <= i < j < |t| ensures t[i].at >= t[j].at {
      assert KeyLe(ByAtDesc(t[i]), ByAtDesc(t[j]));
    }
  }

  /** A record of `arr` has a position in its sorted copy. */
  lemma PositionInSorted(arr: seq<RecentEntry>, e: RecentEntry) returns (k: nat)
    requires e in arr
    ensures k < |SortBy(arr, ByAtDesc)| && SortBy(arr, ByAtDesc)[k] == e
  {
    var t := SortBy(arr, ByAtDesc);
    SortBySortedPerm(arr, ByAtDesc);
    assert e in multiset(arr);
    assert e in t;
    k :| 0 <= k < |t| && t[k] == e;
  }

  /**
   * At most 50 manga, one record each, every record taken from storage, and
   * the list is empty only when storage has no record at all.
   */
  lemma UniqShape(arr: seq<RecentEntry>)
    ensures |Uniq(arr)| <= PageCap
    ensures OnePerManga(Uniq(arr))
    ensures forall i :: 0 <= i < |Uniq(arr)| ==> Uniq(arr)[i] in arr
    ensures Uniq(arr) == [] <==> arr == []
  {
    var t := SortBy(arr, ByAtDesc);
    var r := MapFrom(t);
    var u := Uniq(arr);
    MapFromFacts(t);
    forall i | 0 <= i < |u| ensures u[i] in arr {
      assert u[i] == r[i];
      MapLast(t, i);
      SortedMember(arr, LastIndex(t, r[i].mangaId));
    }
    if arr != [] {
      SortBySortedPerm(arr, ByAtDesc);
      assert |t| == |arr|;
      MapCovers(t, 0);
    }
  }

  /**
   * The record kept for a manga is its OLDEST one: the Map keeps the position
   * of the manga's first (newest) record but the value of its last (oldest).
   */
  lemma UniqKeepsOldest(arr: seq<RecentEntry>)
    ensures forall i, e :: 0 <= i < |Uniq(arr)| && e in arr && e.mangaId == Uniq(arr)[i].mangaId ==>
      Uniq(arr)[i].at <= e.at
  {
    forall i, e | 0 <= i < |Uniq(arr)| && e in arr && e.mangaId == Uniq(arr)[i].mangaId
      ensures Uniq(arr)[i].at <= e.at
    {
      KeptIsOldest(arr, i, e);
    }
  }

  lemma KeptIsOldest(arr: seq<RecentEntry>, i: nat, e: RecentEntry)
    requires i < |Uniq(arr)| && e in arr && e.mangaId == Uniq(arr)[i].mangaId
    ensures Uniq(arr)[i].at <= e.at
  {
    var t := SortBy(arr, ByAtDesc);
    var r := MapFrom(t);
    assert Uniq(arr)[i] == r[i];
    MapLast(t, i);
    var l := LastIndex(t, r[i].mangaId);
    var k := PositionInSorted(arr, e);
    assert k <= l;
    SortedPair(arr, k, l);
  }

  /**
   * The manga are listed by their newest record: a manga listed earlier was
   * read at least as recently as any read of a manga listed later.
   */
  lemma UniqNewestFirst(arr: seq<RecentEntry>)
    ensures forall i, j, e :: 0 <= i < j < |Uniq(arr)| && e in arr && e.mangaId == Uniq(arr)[j].mangaId ==>
      exists d :: d in arr && d.mangaId == Uniq(arr)[i].mangaId && d.at >= e.at
  {
    forall i, j, e | 0 <= i < j < |Uniq(arr)| && e in arr && e.mangaId == Uniq(arr)[j].mangaId
      ensures exists d :: d in arr && d.mangaId == Uniq(arr)[i].mangaId && d.at >= e.at
    {
      var d := NewerWitness(arr, i, j, e);
    }
  }

  lemma NewerWitness(arr: seq<RecentEntry>, i: nat, j: nat, e: RecentEntry) returns (d: RecentEntry)
    requires i < j < |Uniq(arr)| && e in arr && e.mangaId == Uniq(arr)[j].mangaId
    ensures d in arr && d.mangaId == Uniq(arr)[i].mangaId && d.at >= e.at
  {
    var t := SortBy(arr, ByAtDesc);
    var r := MapFrom(t);
    assert Uniq(arr)[i] == r[i] && Uniq(arr)[j] == r[j];
    MapLast(t, i);
    MapOrder(t, i, j);
    var fi, fj := FirstIndex(t, r[i].mangaId), FirstIndex(t, r[j].mangaId);
    var k := PositionInSorted(arr, e);
    assert fj <= k;
    SortedPair(arr, fi, k);
    SortedMember(arr, fi);
    d := t[fi];
  }

  /**
   * Over the cap, the manga left out are the least recently read: for a read
   * of a manga that is not listed, every listed manga was read at least as
   * recently.
   */
  lemma UniqKeepsNewest(arr: seq<RecentEntry>)
    ensures forall i, e ::
      (0 <= i < |Uniq(arr)| && e in arr && forall j :: 0 <= j < |Uniq(arr)| ==> Uniq(arr)[j].mangaId != e.mangaId) ==>
      exists d :: d in arr && d.mangaId == Uniq(arr)[i].mangaId && d.at >= e.at
  {
    forall i, e | 0 <= i < |Uniq(arr)| && e in arr &&
      (forall j :: 0 <= j < |Uniq(arr)| ==> Uniq(arr)[j].mangaId != e.mangaId)
      ensures exists d :: d in arr && d.mangaId == Uniq(arr)[i].mangaId && d.at >= e.at
    {
      var d := DroppedWitness(arr, i, e);
    }
  }

  lemma DroppedWitness(arr: seq<RecentEntry>, i: nat, e: RecentEntry) returns (d: RecentEntry)
    requires i < |Uniq(arr)| && e in arr
    requires forall j :: 0 <= j < |Uniq(arr)| ==> Uniq(arr)[j].mangaId != e.mangaId
    ensures d in arr && d.mangaId == Uniq(arr)[i].mangaId && d.at >= e.at
  {
    var t := SortBy(arr, ByAtDesc);
    var r := MapFrom(t);
    var u := Uniq(arr);
    assert u == r[..|u|];
    var k := PositionInSorted(arr, e);
    MapCovers(t, k);
    var q := FirstIndex(r, t[k].mangaId);
    assert r[q].mangaId == e.mangaId;
    assert q >= |u| by {
      assert forall j :: 0 <= j < |u| ==> u[j].mangaId == r[j].mangaId;
    }
    assert u[i] == r[i];
    MapLast(t, i);
    MapOrder(t, i, q);
    var fi, fq := FirstIndex(t, r[i].mangaId), FirstIndex(t, r[q].mangaId);
    assert fq <= k;
    SortedPair(arr, fi, k);
    SortedMember(arr, fi);
    d := t[fi];
  }

  /** Below the cap nothing is dropped: every manga in storage is listed. */
  lemma UniqCovers(arr: seq<RecentEntry>)
    ensures |Uniq(arr)| < PageCap ==>
      forall e :: e in arr ==> exists i :: 0 <= i < |Uniq(arr)| && Uniq(arr)[i].mangaId == e.mangaId
  {
    var t := SortBy(arr, ByAtDesc);
    var r := MapFrom(t);
    var u := Uniq(arr);
    if |u| < PageCap {
      MapFromFacts(t);
      assert u == r;
      forall e | e in arr ensures exists i :: 0 <= i < |u| && u[i].mangaId == e.mangaId {
        var k := PositionInSorted(arr, e);
        var q := FirstIndex(r, t[k].mangaId);
        assert u[q].mangaId == e.mangaId;
      }
    }
  }

  // ---------------------------------------------------------------------
  // Joining the list with the chapters the database returned.

  datatype MangaRef = MangaRef(id: int, title: Option<string>, coverUrl: Option<string>, slug: Option<string>)

  /** A row of `chapters` with its manga joined in. */
  datatype ChapterRow = ChapterRow(
    id: int,
    number: Option<int>,
    publishedAt: Option<string>,
    mangaId: int,
    manga: Option<MangaRef>)

  datatype RenderRow = RenderRow(
    mangaId: int,
    chapterId: int,
    at: int,
    number: Option<int>,
    mangaTitle: string,
    mangaSlug: Option<string>,
    cover: Option<string>)

  /** `new Map(data.map((c) => [c.id, c]))`: one entry per id, holding a row with that id. */
  function ById(data: seq<ChapterRow>): (m: map<int, ChapterRow>)
    ensures forall id :: id in m ==> m[id] in data && m[id].id == id
  {
    if data == [] then map[]
    else
      var front, c := data[..|data| - 1], data[|data| - 1];
      assert forall x :: x in front ==> x in data;
      ById(front)[c.id := c]
  }

  /** Every fetched id is a key, and a row that no later row shares its id with is the one kept. */
  lemma {:induction false} ByIdLastWins(data: seq<ChapterRow>)
    ensures forall k :: 0 <= k < |data| ==> data[k].id in ById(data)
    ensures forall k :: 0 <= k < |data| && (forall k' :: k < k' < |data| ==> data[k'].id != data[k].id) ==>
      ById(data)[data[k].id] == data[k]
  {
    if data != [] {
      var front, c := data[..|data| - 1], data[|data| - 1];
      ByIdLastWins(front);
      forall k | 0 <= k < |data| - 1 ensures data[k] == front[k] {}
    }
  }

  /** The title when the manga or its title is missing. */
  function FallbackTitle(mangaId: int): string {
    "เรื่อง #" + IntToString(mangaId)
  }

  /** The row for one record; the chapter number always comes from the database. */
  function RowFor(u: RecentEntry, ch: ChapterRow): RenderRow {
    RenderRow(
      u.mangaId, u.chapterId, u.at, ch.number,
      if ch.manga.Some? && ch.manga.value.title.Some? then ch.manga.value.title.value else FallbackTitle(u.mangaId),
      if ch.manga.Some? then ch.manga.value.slug else None,
      if ch.manga.Some? then ch.manga.value.coverUrl else None)
  }

  /** The records whose chapter the query returned, in list order. */
  function Found(uniq: seq<RecentEntry>, byId: map<int, ChapterRow>): (f: seq<RecentEntry>)
    ensures forall e :: e in f <==> e in uniq && e.chapterId in byId
    ensures IsSubseq(f, uniq)
  {
    if uniq == [] then []
    else
      var rest := Found(uniq[1..], byId);
      if uniq[0].chapterId in byId then [uniq[0]] + rest
      else
        SubseqCons(rest, uniq);
        rest
  }

  /**
   * `uniq.map(...)` that yields `null` for a chapter the query did not
   * return, then `.filter(Boolean)`: one row per found record, in order.
   */
  function Join(uniq: seq<RecentEntry>, byId: map<int, ChapterRow>): (r: seq<RenderRow>)
    ensures |r| == |Found(uniq, byId)|
    ensures forall k :: 0 <= k < |r| ==>
      r[k] == RowFor(Found(uniq, byId)[k], byId[Found(uniq, byId)[k].chapterId])
  {
    if uniq == [] then []
    else
      var rest := Join(uniq[1..], byId);
      if uniq[0].chapterId in byId then
        assert Found(uniq, byId) == [uniq[0]] + Found(uniq[1..], byId);
        [RowFor(uniq[0], byId[uniq[0].chapterId])] + rest
      else
        assert Found(uniq, byId) == Found(uniq[1..], byId);
        rest
  }

  // ---------------------------------------------------------------------
  // The page.

  function ChapterIds(uniq: seq<RecentEntry>): seq<int> {
    seq(|uniq|, i requires 0 <= i < |uniq| => uniq[i].chapterId)
  }

  /** The chapter ids the page queries for, or `None` when it queries nothing. */
  function QueryFor(recent: Stored<seq<RecentEntry>>): Option<seq<int>> {
    match AsList(recent)
    case None => None
    case Some(arr) => if Uniq(arr) == [] then None else Some(ChapterIds(Uniq(arr)))
  }

  /** The rows shown once loading ends; `response` is `None` when the query fails. */
  function Shown(recent: Stored<seq<RecentEntry>>, response: Option<seq<ChapterRow>>): seq<RenderRow> {
    match AsList(recent)
    case None => []
    case Some(arr) =>
      if Uniq(arr) == [] || response.None? then [] else Join(Uniq(arr), ById(response.value))
  }

  /**
   * The rows shown: nothing when storage cannot be read or the query fails;
   * otherwise one row for each listed record whose chapter came back, in the
   * list's order, so no manga shows twice and there are at most 50 rows.
   */
  lemma ShownFacts(recent: Stored<seq<RecentEntry>>, response: Option<seq<ChapterRow>>)
    ensures AsList(recent).None? || response.None? ==> Shown(recent, response) == []
    ensures AsList(recent).Some? && response.Some? ==>
      var f := Found(Uniq(AsList(recent).value), ById(response.value));
      |Shown(recent, response)| == |f| <= PageCap &&
      IsSubseq(f, Uniq(AsList(recent).value)) &&
      forall k :: 0 <= k < |f| ==> Shown(recent, response)[k].mangaId == f[k].mangaId
    ensures forall k1, k2 :: 0 <= k1 < k2 < |Shown(recent, response)| ==>
      Shown(recent, response)[k1].mangaId != Shown(recent, response)[k2].mangaId
  {
    if AsList(recent).Some? && response.Some? {
      var u := Uniq(AsList(recent).value);
      var m := ById(response.value);
      var f := Found(u, m);
      UniqShape(AsList(recent).value);
      SubseqMembers(f, u);
      SubseqOnePerManga(f, u);
    }
  }

  /** The page's state: the rows and the loading flag. */
  class RecentPageView {
    var rows: seq<RenderRow>
    var loading: bool

    constructor ()
      ensures rows == [] && loading
    {
      rows := [];
      loading := true;
    }

    /**
     * `load()`: reads `recent_reads`, queries the chapters of the list when
     * it is not empty (`response` is the answer, `None` for an error) and
     * ends with the rows set and loading off.
     */
    method Load(st: LocalStorage, response: Option<seq<ChapterRow>>) returns (query: Option<seq<int>>)
      modifies this
      ensures query == QueryFor(st.recentReads)
      ensures rows == Shown(st.recentReads, response)
      ensures !loading
    {
      loading := true;
      query := None;
      var parsed := AsList(st.recentReads);
      if parsed.None? {
        rows := [];           // the parse error is caught
      } else {
        var uniq := Uniq(parsed.value);
        if uniq == [] {
          rows := [];
        } else {
          query := Some(ChapterIds(uniq));
          if response.None? {
            rows := [];
          } else {
            rows := Join(uniq, ById(response.value));
          }
        }
      }
      loading := false;
    }
  }
}
