// The browser's flat list of documents, and the array operations the
// sidebar code uses on it.
module DocumentList {
  import opened Prelude
  import opened DocumentTable
  import opened DocumentForest

  ghost predicate DistinctIds(docs: seq<Doc>) {
    forall i, j :: 0 <= i < j < |docs| ==> docs[i].id != docs[j].id
  }

  /** Displayed siblings have pairwise distinct positions. */
  ghost predicate DistinctPositions(docs: seq<Doc>) {
    forall i, j :: 0 <= i < j < |docs| && docs[i].parent == docs[j].parent ==> docs[i].position != docs[j].position
  }

  /** `docs.find(d => d.id === id)`. */
  function Find(docs: seq<Doc>, id: Id): (r: Option<Doc>)
    ensures r.Some? ==> r.value in docs && r.value.id == id
    ensures r.None? ==> forall d :: d in docs ==> d.id != id
  {
    var i := IndexOf(docs, id);
    if i == -1 then None else Some(docs[i])
  }

  /** The documents under one parent, in list order. */
  function ChildList(docs: seq<Doc>, p: Option<Id>): (r: seq<Doc>)
    ensures forall d :: d in r <==> d in docs && d.parent == p
  {
    if docs == [] then []
    else (if docs[0].parent == p then [docs[0]] else []) + ChildList(docs[1..], p)
  }

  function Without(docs: seq<Doc>, id: Id): (r: seq<Doc>)
    ensures forall d :: d in r <==> d in docs && d.id != id
  {
    if docs == [] then []
    else (if docs[0].id != id then [docs[0]] else []) + Without(docs[1..], id)
  }

  ghost predicate Ascending(s: seq<Doc>) {
    forall i, j :: 0 <= i < j < |s| ==> s[i].position <= s[j].position
  }

  ghost predicate StrictlyAscending(s: seq<Doc>) {
    forall i, j :: 0 <= i < j < |s| ==> s[i].position < s[j].position
  }

  function Insert(d: Doc, s: seq<Doc>): (r: seq<Doc>)
    ensures forall e :: e in r <==> e == d || e in s
    ensures |r| == |s| + 1
  {
    if s == [] || d.position <= s[0].position then [d] + s else [s[0]] + Insert(d, s[1..])
  }

  /** `docs.sort((a, b) => a.position - b.position)`, which is stable. */
  function SortByPosition(s: seq<Doc>): (r: seq<Doc>)
    ensures forall e :: e in r <==> e in s
    ensures |r| == |s|
  {
    if s == [] then [] else Insert(s[0], SortByPosition(s[1..]))
  }

  lemma {:induction false} InsertAscends(d: Doc, s: seq<Doc>)
    requires Ascending(s)
    ensures Ascending(Insert(d, s))
  {
    if s != [] && d.position > s[0].position {
      InsertAscends(d, s[1..]);
      var rest := Insert(d, s[1..]);
      forall j | 0 <= j < |rest| ensures s[0].position <= rest[j].position {
        assert rest[j] in rest;
        if rest[j] != d {
          assert rest[j] in s[1..];
          var i :| 1 <= i < |s| && s[i] == rest[j];
        }
      }
    }
  }

  lemma {:induction false} SortAscends(s: seq<Doc>)
    ensures Ascending(SortByPosition(s))
  {
    if s != [] {
      SortAscends(s[1..]);
      InsertAscends(s[0], SortByPosition(s[1..]));
    }
  }

  /** Strictly ascending lists of the same documents are equal. */
  lemma {:induction false} SameAscending(s: seq<Doc>, r: seq<Doc>)
    requires StrictlyAscending(s) && StrictlyAscending(r) && forall d :: d in s <==> d in r
    ensures s == r
  {
    assert r != [] ==> r[0] in r;
    if s != [] {
      assert s[0] in s;
      var j :| 0 <= j < |r| && r[j] == s[0];
      var i :| 0 <= i < |s| && s[i] == r[0];
      assert s[0] == r[0];
      forall d ensures d in s[1..] <==> d in r[1..] {
        TailMembers(s, d);
        TailMembers(r, d);
      }
      SameAscending(s[1..], r[1..]);
    }
  }

  lemma TailMembers(s: seq<Doc>, d: Doc)
    requires StrictlyAscending(s) && s != []
    ensures d in s[1..] <==> d in s && d != s[0]
  {
    if d in s && d != s[0] {
      var i :| 0 <= i < |s| && s[i] == d;
      assert s[1..][i - 1] == d;
    }
  }

  /** Sorting neither loses nor repeats an id. */
  lemma {:induction false} InsertKeepsDistinct(d: Doc, s: seq<Doc>)
    requires DistinctIds(s) && forall e :: e in s ==> e.id != d.id
    ensures DistinctIds(Insert(d, s))
  {
    if s != [] && d.position > s[0].position {
      assert forall e :: e in s[1..] ==> e in s;
      InsertKeepsDistinct(d, s[1..]);
      var rest := Insert(d, s[1..]);
      forall j | 0 <= j < |rest| ensures s[0].id != rest[j].id {
        assert rest[j] in rest;
        if rest[j] != d {
          assert rest[j] in s[1..];
          var i :| 1 <= i < |s| && s[i] == rest[j];
        } else {
          assert s[0] in s;
        }
      }
    } else {
      assert forall j :: 0 <= j < |s| ==> s[j] in s;
    }
  }

  lemma {:induction false} SortKeepsDistinct(s: seq<Doc>)
    requires DistinctIds(s)
    ensures DistinctIds(SortByPosition(s))
  {
    if s != [] {
      SortKeepsDistinct(s[1..]);
      forall e | e in s[1..] ensures e.id != s[0].id {
        var i :| 1 <= i < |s| && s[i] == e;
      }
      InsertKeepsDistinct(s[0], SortByPosition(s[1..]));
    }
  }

  lemma {:induction false} ChildListKeepsDistinct(docs: seq<Doc>, p: Option<Id>)
    requires DistinctIds(docs)
    ensures DistinctIds(ChildList(docs, p))
  {
    if docs != [] {
      ChildListKeepsDistinct(docs[1..], p);
      var rest := ChildList(docs[1..], p);
      forall j | 0 <= j < |rest| ensures docs[0].id != rest[j].id {
        assert rest[j] in docs[1..];
        var i :| 1 <= i < |docs| && docs[i] == rest[j];
      }
    }
  }

  lemma {:induction false} WithoutKeepsDistinct(docs: seq<Doc>, id: Id)
    requires DistinctIds(docs)
    ensures DistinctIds(Without(docs, id))
  {
    if docs != [] {
      WithoutKeepsDistinct(docs[1..], id);
      var rest := Without(docs[1..], id);
      forall j | 0 <= j < |rest| ensures docs[0].id != rest[j].id {
        assert rest[j] in docs[1..];
        var i :| 1 <= i < |docs| && docs[i] == rest[j];
      }
    }
  }

  /** Some documents under one parent, sorted: strictly ascending, since their positions differ. */
  lemma SortedSiblings(docs: seq<Doc>, p: Option<Id>, s: seq<Doc>)
    requires DistinctPositions(docs) && DistinctIds(s)
    requires forall d :: d in s ==> d in docs && d.parent == p
    ensures StrictlyAscending(SortByPosition(s))
  {
    var r := SortByPosition(s);
    SortAscends(s);
    SortKeepsDistinct(s);
    forall i, j | 0 <= i < j < |r| ensures r[i].position < r[j].position {
      assert r[i] in r && r[j] in r;
      var a :| 0 <= a < |docs| && docs[a] == r[i];
      var b :| 0 <= b < |docs| && docs[b] == r[j];
      assert a != b;
    }
  }

  /** `new Map(docs.map(d => [d.id, d]))`. */
  function ById(docs: seq<Doc>): (m: Table)
    ensures forall x :: x in m ==> m[x] in docs && m[x].id == x
    ensures forall d :: d in docs ==> d.id in m
    ensures |m| <= |docs|
  {
    if docs == [] then map[]
    else
      var last := docs[|docs| - 1];
      var rest := docs[..|docs| - 1];
      assert docs == rest + [last];
      var m := ById(rest);
      assert m[last.id := last].Keys == m.Keys + {last.id};
      m[last.id := last]
  }

  lemma ByIdExact(docs: seq<Doc>, d: Doc)
    requires DistinctIds(docs) && d in docs
    ensures d.id in ById(docs) && ById(docs)[d.id] == d
  {
    var i :| 0 <= i < |docs| && docs[i] == d;
    var j :| 0 <= j < |docs| && docs[j] == ById(docs)[d.id];
  }

  // ----- the walk with n + 1 steps -----

  /** An ancestor that is met at all is met within as many steps as there are rows: a pigeonhole argument. */
  lemma MetEarly(m: Table, c: Id, a: Id) returns (k: nat)
    requires Reaches(m, c, a)
    ensures k <= |m| && Up(m, Some(c), k) == Some(a)
  {
    var n: nat :| Up(m, Some(c), n) == Some(a);
    k := FirstMeeting(m, Some(c), a, n);
    var nodes := seq(k, i requires 0 <= i < k => NodeAt(m, c, k, i));
    forall i | 0 <= i < k ensures nodes[i] in m.Keys && Up(m, Some(c), i) == Some(nodes[i]) {
      NodeAtIn(m, c, k, i);
    }
    forall i, j | 0 <= i < j < k ensures nodes[i] != nodes[j] {
      if nodes[i] == nodes[j] {
        UpAdd(m, Some(c), i, k - j);
        UpAdd(m, Some(c), j, k - j);
      }
    }
    Pigeonhole(nodes, m.Keys);
  }

  ghost function NodeAt(m: Table, c: Id, k: nat, i: nat): Id
    requires i < k && Up(m, Some(c), k).Some?
    ensures Up(m, Some(c), i) == Some(NodeAt(m, c, k, i))
  {
    NodeAtIn(m, c, k, i);
    Up(m, Some(c), i).value
  }

  lemma NodeAtIn(m: Table, c: Id, k: nat, i: nat)
    requires i < k && Up(m, Some(c), k).Some?
    ensures Up(m, Some(c), i).Some? && Up(m, Some(c), i).value in m
  {
    if Up(m, Some(c), i + 1) == None { UpStaysNone(m, Some(c), i + 1, k); }
    UpStep(m, Some(c), i);
  }

  // ----- what is on screen -----

  /** The document is on screen: its chain of parents reaches the root through listed documents. */
  ghost predicate Displayed(docs: seq<Doc>, x: Id) {
    exists n: nat :: DisplayedWithin(ById(docs), Some(x), n)
  }

  ghost predicate DisplayedWithin(m: Table, x: Option<Id>, n: nat)
    decreases n
  {
    x.None? || (n > 0 && x.value in m && DisplayedWithin(m, m[x.value].parent, n - 1))
  }
}
