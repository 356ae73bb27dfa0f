/** The persisted summary records and the newest-first listing. */
module SummaryStore {

  /** Abstract record identifier (the document's `_id`). */
  type Id = nat
  /** Abstract clock reading used for `createdAt` and `updatedAt`. */
  type Time = nat

  /** The stored fields of a summary document, with its automatic timestamps. */
  datatype Doc = Doc(url: string, summaryName: string, websiteContent: string,
                     summary: string, createdAt: Time, updatedAt: Time)

  /** A document together with its id: the shape sent to and kept by the client. */
  datatype Record = Record(id: Id, doc: Doc)

  /** The collection: every id maps to at most one document. */
  type Store = map<Id, Doc>

  /** `a` sorts before `b` in the listing: created later, or created at the same
      time with a larger id. */
  predicate Newer(a: Record, b: Record) {
    a.doc.createdAt > b.doc.createdAt || (a.doc.createdAt == b.doc.createdAt && a.id > b.id)
  }

  /** Strictly newest first (hence without repeated ids). */
  predicate NewestFirst(rs: seq<Record>) {
    forall i, j :: 0 <= i < j < |rs| ==> Newer(rs[i], rs[j])
  }

  /** `r` is a record of the store. */
  predicate Holds(s: Store, r: Record) {
    r.id in s && s[r.id] == r.doc
  }

  /** `k` is the id of the newest record of `s`. */
  predicate IsNewest(s: Store, k: Id) {
    k in s && forall j :: j in s && j != k ==> Newer(Record(k, s[k]), Record(j, s[j]))
  }

  lemma {:induction false} NewestExists(s: Store)
    requires s != map[]
    ensures exists k :: IsNewest(s, k)
    decreases |s|
  {
    var k0 :| k0 in s;
    var rest := s - {k0};
    assert rest.Keys == s.Keys - {k0};
    if rest == map[] {
      assert rest.Keys == {};
      assert s.Keys == {k0};
      assert IsNewest(s, k0);
    } else {
      NewestExists(rest);
      var k1 :| IsNewest(rest, k1);
      var r0, r1 := Record(k0, s[k0]), Record(k1, s[k1]);
      if Newer(r0, r1) {
        forall j | j in s && j != k0 ensures Newer(r0, Record(j, s[j])) {
          if j != k1 {
            assert j in rest;
            assert Newer(r1, Record(j, s[j]));
          }
        }
        assert IsNewest(s, k0);
      } else {
        forall j | j in s && j != k1 ensures Newer(r1, Record(j, s[j])) {
          if j != k0 {
            assert j in rest;
          }
        }
        assert IsNewest(s, k1);
      }
    }
  }

  /** The id of the newest record. */
  function Newest(s: Store): (k: Id)
    requires s != map[]
    ensures IsNewest(s, k)
  {
    NewestExists(s);
    var k :| IsNewest(s, k);
    k
  }

  /** `Summary.find().sort({ createdAt: -1 })`: every record exactly once, newest first. */
  function ListNewestFirst(s: Store): (rs: seq<Record>)
    ensures NewestFirst(rs)
    ensures forall r :: r in rs <==> Holds(s, r)
    ensures |rs| == |s|
    decreases |s|
  {
    if s == map[] then []
    else
      var k := Newest(s);
      var rest := s - {k};
      assert rest.Keys == s.Keys - {k};
      var tail := ListNewestFirst(rest);
      assert forall r :: r in tail ==> Newer(Record(k, s[k]), r) by {
        forall r | r in tail ensures Newer(Record(k, s[k]), r) {
          assert Holds(rest, r) && r.id != k;
        }
      }
      [Record(k, s[k])] + tail
  }

  /** Two strictly newest-first lists holding the same records are the same list:
      the listing is determined by the set of records alone. */
  lemma {:induction false} NewestFirstUnique(a: seq<Record>, b: seq<Record>)
    requires NewestFirst(a) && NewestFirst(b)
    requires forall r :: r in a <==> r in b
    ensures a == b
    decreases |a|
  {
    assert b != [] ==> b[0] in a;
    if a != [] {
      assert a[0] in b;
      assert b != [];
      assert b[0] in a;
      var a0, b0 := a[0], b[0];
      var i :| 0 <= i < |a| && a[i] == b0;
      var j :| 0 <= j < |b| && b[j] == a0;
      assert i == 0 || Newer(a0, b0);
      assert j == 0 || Newer(b0, a0);
      assert a0 == b0;
      forall r ensures r in a[1..] <==> r in b[1..] {
        if r in a[1..] {
          var i :| 1 <= i < |a| && a[i] == r;
          assert Newer(a[0], a[i]);
          assert r in b && r != b[0];
          var j :| 0 <= j < |b| && b[j] == r;
          assert j != 0;
          assert b[1..][j - 1] == r;
        }
        if r in b[1..] {
          var j :| 1 <= j < |b| && b[j] == r;
          assert Newer(b[0], b[j]);
          assert r in a && r != a[0];
          var i :| 0 <= i < |a| && a[i] == r;
          assert i != 0;
          assert a[1..][i - 1] == r;
        }
      }
      NewestFirstUnique(a[1..], b[1..]);
      assert a == [a[0]] + a[1..] && b == [b[0]] + b[1..];
    }
  }

  /** Any strictly newest-first list of exactly the store's records is its listing. */
  lemma IsListing(s: Store, rs: seq<Record>)
    requires NewestFirst(rs)
    requires forall r :: r in rs <==> Holds(s, r)
    ensures rs == ListNewestFirst(s)
  {
    NewestFirstUnique(rs, ListNewestFirst(s));
  }
}
