/** Postings normalisation: one entry per file, with the unit numbers sorted and
    de-duplicated and the counts summed, ranked by count and then file id.
    This layer has its own posting shape (file id, unit numbers, count). */
module Normalize {
  import opened Results

  datatype Posting = Posting(fileId: int, unitIndex: seq<int>, count: int)

  /** The ValueError raised when asked to merge nothing. */
  datatype MergeError = EmptyMergeInput

  predicate StrictlyIncreasing(s: seq<int>)
  {
    forall i, j :: 0 <= i < j < |s| ==> s[i] < s[j]
  }

  // ---------------------------------------------------------------------------
  // sorted(set(unit_numbers))

  function InsertUnique(x: int, s: seq<int>): (r: seq<int>)
    requires StrictlyIncreasing(s)
    ensures StrictlyIncreasing(r)
    ensures forall y :: y in r <==> y == x || y in s
  {
    if s == [] then [x]
    else if x < s[0] then [x] + s
    else if x == s[0] then s
    else
      var t := InsertUnique(x, s[1..]);
      assert forall y :: y in s[1..] ==> s[0] < y;
      assert forall k :: 0 <= k < |t| ==> s[0] < t[k] by {
        forall k | 0 <= k < |t|
          ensures s[0] < t[k]
        {
          assert t[k] in t;
        }
      }
      [s[0]] + t
  }

  /** normalize_unit_numbers: the distinct unit numbers in increasing order. */
  function NormalizeUnitNumbers(xs: seq<int>): (r: seq<int>)
    ensures StrictlyIncreasing(r)
    ensures forall y :: y in r <==> y in xs
  {
    if xs == [] then []
    else
      assert xs == xs[..|xs| - 1] + [xs[|xs| - 1]];
      InsertUnique(xs[|xs| - 1], NormalizeUnitNumbers(xs[..|xs| - 1]))
  }

  /** Sequences with the same elements are empty together. */
  lemma SameElementsEmpty<T>(a: seq<T>, b: seq<T>)
    requires forall y :: y in a <==> y in b
    ensures a == [] <==> b == []
  {
    if a != [] {
      assert a[0] in a;
    }
    if b != [] {
      assert b[0] in b;
    }
  }

  /** Increasing sequences with the same elements start with the same element. */
  lemma IncreasingHeads(a: seq<int>, b: seq<int>)
    requires StrictlyIncreasing(a) && StrictlyIncreasing(b)
    requires forall y :: y in a <==> y in b
    requires a != [] && b != []
    ensures a[0] == b[0]
  {
    assert a[0] in b && b[0] in a;
    var i :| 0 <= i < |a| && a[i] == b[0];
    var j :| 0 <= j < |b| && b[j] == a[0];
    assert a[0] <= a[i] && b[0] <= b[j];
  }

  /** After a common first element, what follows in a also follows in b. */
  lemma IncreasingTailIn(a: seq<int>, b: seq<int>)
    requires StrictlyIncreasing(a) && StrictlyIncreasing(b)
    requires forall y :: y in a <==> y in b
    requires a != [] && b != [] && a[0] == b[0]
    ensures forall y :: y in a[1..] ==> y in b[1..]
  {
    forall y | y in a[1..]
      ensures y in b[1..]
    {
      var i :| 1 <= i < |a| && a[i] == y;
      assert y in b;
      var j :| 0 <= j < |b| && b[j] == y;
      assert j != 0 by { assert a[0] < a[i]; }
      assert b[1..][j - 1] == y;
    }
  }

  /** Two increasing sequences with the same elements are the same sequence. */
  lemma {:induction false} StrictlyIncreasingUnique(a: seq<int>, b: seq<int>)
    requires StrictlyIncreasing(a) && StrictlyIncreasing(b)
    requires forall y :: y in a <==> y in b
    ensures a == b
    decreases |a|
  {
    if a != [] {
      assert a[0] in a;
    }
    if b != [] {
      assert b[0] in b;
    }
    if a != [] {
      IncreasingHeads(a, b);
      IncreasingTailIn(a, b);
      IncreasingTailIn(b, a);
      StrictlyIncreasingUnique(a[1..], b[1..]);
      assert a == [a[0]] + a[1..] && b == [b[0]] + b[1..];
    }
  }

  /** Normalising unit numbers twice is the same as once. */
  lemma NormalizeUnitNumbersIdempotent(xs: seq<int>)
    ensures NormalizeUnitNumbers(NormalizeUnitNumbers(xs)) == NormalizeUnitNumbers(xs)
  {
    var r := NormalizeUnitNumbers(xs);
    StrictlyIncreasingUnique(NormalizeUnitNumbers(r), r);
  }

  /** The result depends only on the set of unit numbers. */
  lemma NormalizeUnitNumbersBySet(xs: seq<int>, ys: seq<int>)
    requires forall y :: y in xs <==> y in ys
    ensures NormalizeUnitNumbers(xs) == NormalizeUnitNumbers(ys)
  {
    StrictlyIncreasingUnique(NormalizeUnitNumbers(xs), NormalizeUnitNumbers(ys));
  }

  // ---------------------------------------------------------------------------
  // merge_hits_for_same_file

  /** sum(h.count for h in hits). */
  function SumCounts(hits: seq<Posting>): int
  {
    if hits == [] then 0 else SumCounts(hits[..|hits| - 1]) + hits[|hits| - 1].count
  }

  /** The unit numbers of all postings, concatenated in order. */
  function ConcatUnits(hits: seq<Posting>): seq<int>
  {
    if hits == [] then [] else ConcatUnits(hits[..|hits| - 1]) + hits[|hits| - 1].unitIndex
  }

  /** Every unit number mentioned by some posting. */
  ghost function UnitSet(hits: seq<Posting>): set<int>
  {
    set h, u | h in hits && u in h.unitIndex :: u
  }

  lemma {:induction false} ConcatUnitsMembers(hits: seq<Posting>)
    ensures forall u :: u in ConcatUnits(hits) <==> u in UnitSet(hits)
  {
    if hits != [] {
      var p := hits[..|hits| - 1];
      var x := hits[|hits| - 1];
      ConcatUnitsMembers(p);
      assert hits == p + [x];
      forall u
        ensures u in ConcatUnits(hits) <==> u in UnitSet(hits)
      {
        if u in UnitSet(hits) {
          var h :| h in hits && u in h.unitIndex;
          if h != x {
            assert h in p;
          }
        }
      }
    }
  }

  /** merge_hits_for_same_file: the file id of the first posting, every unit
      number once in increasing order, and the total count; an error on no input. */
  function MergeHits(hits: seq<Posting>): (r: Result<Posting, MergeError>)
    ensures r.Failure? <==> hits == []
    ensures r.Success? ==>
      && r.value.fileId == hits[0].fileId
      && r.value.count == SumCounts(hits)
      && StrictlyIncreasing(r.value.unitIndex)
      && forall u :: u in r.value.unitIndex <==> u in UnitSet(hits)
  {
    if hits == [] then Failure(EmptyMergeInput)
    else
      ConcatUnitsMembers(hits);
      Success(Posting(hits[0].fileId, NormalizeUnitNumbers(ConcatUnits(hits)), SumCounts(hits)))
  }

  /** The loop of merge_hits_for_same_file, which gathers the unit numbers. */
  method MergeHitsForSameFile(hits: seq<Posting>) returns (r: Result<Posting, MergeError>)
    ensures r == MergeHits(hits)
  {
    if hits == [] {
      return Failure(EmptyMergeInput);
    }
    var totalCount := SumCounts(hits);
    var allUnits: seq<int> := [];
    for k := 0 to |hits|
      invariant allUnits == ConcatUnits(hits[..k])
    {
      assert hits[..k + 1][..k] == hits[..k];
      allUnits := allUnits + hits[k].unitIndex;
    }
    assert hits[..|hits|] == hits;
    r := Success(Posting(hits[0].fileId, NormalizeUnitNumbers(allUnits), totalCount));
  }

  // ---------------------------------------------------------------------------
  // sorted(postings, key=file_id): a stable sort

  /** The postings of file f, in their original order. */
  function Restrict(s: seq<Posting>, f: int): seq<Posting>
  {
    if s == [] then [] else (if s[0].fileId == f then [s[0]] else []) + Restrict(s[1..], f)
  }

  lemma {:induction false} RestrictAppend(a: seq<Posting>, b: seq<Posting>, f: int)
    ensures Restrict(a + b, f) == Restrict(a, f) + Restrict(b, f)
  {
    if a == [] {
      assert a + b == b;
    } else {
      var head := if a[0].fileId == f then [a[0]] else [];
      assert (a + b)[0] == a[0];
      assert (a + b)[1..] == a[1..] + b;
      assert Restrict(a + b, f) == head + Restrict(a[1..] + b, f);
      assert Restrict(a, f) == head + Restrict(a[1..], f);
      RestrictAppend(a[1..], b, f);
      assert head + (Restrict(a[1..], f) + Restrict(b, f)) == (head + Restrict(a[1..], f)) + Restrict(b, f);
    }
  }

  lemma {:induction false} RestrictNone(s: seq<Posting>, f: int)
    requires forall i :: 0 <= i < |s| ==> s[i].fileId != f
    ensures Restrict(s, f) == []
  {
    if s != [] {
      RestrictNone(s[1..], f);
    }
  }

  ghost function FileIds(s: seq<Posting>): set<int>
  {
    set p | p in s :: p.fileId
  }

  lemma {:induction false} RestrictEmptyIff(s: seq<Posting>, f: int)
    ensures Restrict(s, f) == [] <==> f !in FileIds(s)
  {
    if s != [] {
      RestrictEmptyIff(s[1..], f);
      assert FileIds(s) == {s[0].fileId} + FileIds(s[1..]) by {
        assert s == [s[0]] + s[1..];
      }
    }
  }

  predicate SortedByFileId(s: seq<Posting>)
  {
    forall i, j :: 0 <= i < j < |s| ==> s[i].fileId <= s[j].fileId
  }

  function InsertByFileId(s: seq<Posting>, x: Posting): (r: seq<Posting>)
    requires SortedByFileId(s)
    ensures SortedByFileId(r)
    ensures |r| == |s| + 1
    ensures forall p :: p in r <==> p in s || p == x
  {
    if s == [] then [x]
    else if x.fileId < s[0].fileId then [x] + s
    else
      var t := InsertByFileId(s[1..], x);
      assert forall k :: 0 <= k < |t| ==> s[0].fileId <= t[k].fileId by {
        forall k | 0 <= k < |t|
          ensures s[0].fileId <= t[k].fileId
        {
          assert t[k] in t;
          if t[k] != x {
            var i :| 0 <= i < |s[1..]| && s[1..][i] == t[k];
            assert s[1..][i] == s[i + 1];
          }
        }
      }
      [s[0]] + t
  }

  lemma {:induction false} InsertByFileIdRestrict(s: seq<Posting>, x: Posting, f: int)
    requires SortedByFileId(s)
    ensures Restrict(InsertByFileId(s, x), f) == Restrict(s, f) + Restrict([x], f)
  {
    if s == [] {
      assert Restrict(s, f) == [];
    } else if x.fileId < s[0].fileId {
      InsertFrontRestrict(s, x, f);
    } else {
      SortedTail(s);
      InsertByFileIdRestrict(s[1..], x, f);
      InsertAfterHead(s, x);
      RestrictCons(s[0], InsertByFileId(s[1..], x), s[1..], [x], f);
      assert [s[0]] + s[1..] == s;
    }
  }

  lemma SortedTail(s: seq<Posting>)
    requires SortedByFileId(s) && s != []
    ensures SortedByFileId(s[1..])
  {
    forall i, j | 0 <= i < j < |s| - 1 ensures s[1..][i].fileId <= s[1..][j].fileId {
      assert s[1..][i] == s[i + 1] && s[1..][j] == s[j + 1];
    }
  }

  /** A posting at or above the first file id goes after the first posting. */
  lemma InsertAfterHead(s: seq<Posting>, x: Posting)
    requires SortedByFileId(s) && s != [] && x.fileId >= s[0].fileId
    requires SortedByFileId(s[1..])
    ensures InsertByFileId(s, x) == [s[0]] + InsertByFileId(s[1..], x)
  {
  }

  /** Putting the same posting in front of both sides keeps a Restrict equation. */
  lemma RestrictCons(h: Posting, t: seq<Posting>, u: seq<Posting>, v: seq<Posting>, f: int)
    requires Restrict(t, f) == Restrict(u, f) + Restrict(v, f)
    ensures Restrict([h] + t, f) == Restrict([h] + u, f) + Restrict(v, f)
  {
    var head, rt, ru, rv := Restrict([h], f), Restrict(t, f), Restrict(u, f), Restrict(v, f);
    assert Restrict([h] + t, f) == head + rt by {
      RestrictAppend([h], t, f);
    }
    assert Restrict([h] + u, f) == head + ru by {
      RestrictAppend([h], u, f);
    }
    assert head + (ru + rv) == (head + ru) + rv;
  }

  /** A posting below every file id of s goes first. */
  lemma InsertFrontRestrict(s: seq<Posting>, x: Posting, f: int)
    requires SortedByFileId(s) && s != [] && x.fileId < s[0].fileId
    ensures Restrict(InsertByFileId(s, x), f) == Restrict(s, f) + Restrict([x], f)
  {
    assert InsertByFileId(s, x) == [x] + s;
    RestrictAppend([x], s, f);
    if x.fileId == f {
      forall i | 0 <= i < |s|
        ensures s[i].fileId != f
      {
        assert s[0].fileId <= s[i].fileId;
      }
      RestrictNone(s, f);
    } else {
      RestrictNone([x], f);
    }
  }

  /** sorted(postings, key=file_id): insertion keeps equal keys in input order. */
  function SortByFileId(ps: seq<Posting>): (r: seq<Posting>)
    ensures SortedByFileId(r)
    ensures |r| == |ps|
    ensures forall p :: p in r <==> p in ps
  {
    if ps == [] then []
    else
      assert ps == ps[..|ps| - 1] + [ps[|ps| - 1]];
      InsertByFileId(SortByFileId(ps[..|ps| - 1]), ps[|ps| - 1])
  }

  /** The sort is stable: each file's postings keep their relative order. */
  lemma {:induction false} SortByFileIdRestrict(ps: seq<Posting>, f: int)
    ensures Restrict(SortByFileId(ps), f) == Restrict(ps, f)
  {
    if ps != [] {
      var p := ps[..|ps| - 1];
      var x := ps[|ps| - 1];
      var sp := SortByFileId(p);
      assert SortByFileId(ps) == InsertByFileId(sp, x);
      SortByFileIdRestrict(p, f);
      InsertByFileIdRestrict(sp, x, f);
      assert p + [x] == ps;
      RestrictAppend(p, [x], f);
    }
  }

  // ---------------------------------------------------------------------------
  // The grouping loop of normalize_postings

  /** The runs of equal file ids of a sequence, as the loop builds them: the
      next posting joins the current run when it has the run's first file id. */
  function Groups(s: seq<Posting>): (g: seq<seq<Posting>>)
    requires s != []
    ensures g != []
    ensures forall k :: 0 <= k < |g| ==> g[k] != []
  {
    if |s| == 1 then [[s[0]]]
    else
      var p := Groups(s[..|s| - 1]);
      var x := s[|s| - 1];
      if x.fileId == p[|p| - 1][0].fileId then p[..|p| - 1] + [p[|p| - 1] + [x]]
      else p + [[x]]
  }

  lemma GroupsSnoc(s: seq<Posting>, x: Posting)
    requires s != []
    ensures var g := Groups(s);
      Groups(s + [x]) ==
        if x.fileId == g[|g| - 1][0].fileId then g[..|g| - 1] + [g[|g| - 1] + [x]]
        else g + [[x]]
  {
    assert (s + [x])[..|s|] == s;
  }

  /** The file id of each group, taken from its first posting. */
  function GroupIds(g: seq<seq<Posting>>): (ids: seq<int>)
    requires forall k :: 0 <= k < |g| ==> g[k] != []
    ensures |ids| == |g|
  {
    seq(|g|, k requires 0 <= k < |g| => g[k][0].fileId)
  }

  /** What Groups computes on a sequence sorted by file id: one group per file
      id, in increasing file id order, each the postings of that file. */
  ghost predicate GroupsOf(g: seq<seq<Posting>>, s: seq<Posting>)
    requires forall k :: 0 <= k < |g| ==> g[k] != []
  {
    && (forall k :: 0 <= k < |g| ==> g[k] == Restrict(s, GroupIds(g)[k]))
    && StrictlyIncreasing(GroupIds(g))
    && (forall f :: f in FileIds(s) <==> f in GroupIds(g))
  }

  lemma RestrictSnoc(p: seq<Posting>, x: Posting, f: int)
    ensures Restrict(p + [x], f) == Restrict(p, f) + (if x.fileId == f then [x] else [])
  {
    RestrictAppend(p, [x], f);
    assert Restrict([x], f) == (if x.fileId == f then [x] else []) + Restrict([], f);
  }

  lemma FileIdsSnoc(p: seq<Posting>, x: Posting)
    ensures FileIds(p + [x]) == FileIds(p) + {x.fileId}
  {
    var s := p + [x];
    forall f | f in FileIds(s)
      ensures f in FileIds(p) + {x.fileId}
    {
      var q :| q in s && q.fileId == f;
      if q != x {
        assert q in p;
      }
    }
    assert x in s;
    forall f | f in FileIds(p)
      ensures f in FileIds(s)
    {
      var q :| q in p && q.fileId == f;
      assert q in s;
    }
  }

  /** The next posting has the current group's file id: the group grows. */
  lemma GroupsJoin(p: seq<Posting>, x: Posting, gp: seq<seq<Posting>>, g: seq<seq<Posting>>)
    requires gp != [] && forall k :: 0 <= k < |gp| ==> gp[k] != []
    requires GroupsOf(gp, p)
    requires x.fileId == GroupIds(gp)[|gp| - 1]
    requires forall k :: 0 <= k < |g| ==> g[k] != []
    requires g == gp[..|gp| - 1] + [gp[|gp| - 1] + [x]]
    ensures GroupIds(g) == GroupIds(gp) && GroupsOf(g, p + [x])
    ensures GroupIds(g)[|g| - 1] == x.fileId
  {
    var n := |gp|;
    assert x.fileId == gp[n - 1][0].fileId;
    var ids := GroupIds(gp);
    assert GroupIds(g) == ids by {
      forall k | 0 <= k < n
        ensures GroupIds(g)[k] == ids[k]
      {
        if k < n - 1 {
          assert g[k] == gp[k];
        } else {
          assert g[k][0] == gp[n - 1][0];
        }
      }
    }
    FileIdsSnoc(p, x);
    assert x.fileId in ids by { assert ids[n - 1] == x.fileId; }
    forall k | 0 <= k < n
      ensures g[k] == Restrict(p + [x], ids[k])
    {
      RestrictSnoc(p, x, ids[k]);
      if k < n - 1 {
        assert g[k] == gp[k];
        assert ids[k] < ids[n - 1];
      }
    }
  }

  /** The next posting has a larger file id: it opens a new group. */
  lemma GroupsOpen(p: seq<Posting>, x: Posting, gp: seq<seq<Posting>>, g: seq<seq<Posting>>)
    requires forall k :: 0 <= k < |gp| ==> gp[k] != []
    requires GroupsOf(gp, p)
    requires forall i :: 0 <= i < |p| ==> p[i].fileId < x.fileId
    requires forall k :: 0 <= k < |g| ==> g[k] != []
    requires g == gp + [[x]]
    ensures GroupIds(g) == GroupIds(gp) + [x.fileId] && GroupsOf(g, p + [x])
    ensures GroupIds(g)[|g| - 1] == x.fileId
  {
    var n := |gp|;
    var ids := GroupIds(gp);
    assert GroupIds(g) == ids + [x.fileId] by {
      forall k | 0 <= k < n
        ensures GroupIds(g)[k] == ids[k]
      {
        assert g[k] == gp[k];
      }
    }
    FileIdsSnoc(p, x);
    forall k | 0 <= k < n
      ensures ids[k] < x.fileId
    {
      assert ids[k] in FileIds(p);
      var q :| q in p && q.fileId == ids[k];
    }
    forall k | 0 <= k < n + 1
      ensures g[k] == Restrict(p + [x], GroupIds(g)[k])
    {
      if k < n {
        RestrictSnoc(p, x, ids[k]);
        assert g[k] == gp[k];
      } else {
        RestrictSnoc(p, x, x.fileId);
        RestrictNone(p, x.fileId);
      }
    }
  }

  lemma GroupsSingle(x: Posting)
    ensures GroupsOf(Groups([x]), [x])
    ensures GroupIds(Groups([x]))[0] == x.fileId
  {
    assert [x] == [] + [x];
    RestrictSnoc([], x, x.fileId);
    FileIdsSnoc([], x);
    assert GroupIds(Groups([x])) == [x.fileId];
  }

  lemma {:induction false} GroupsSpec(s: seq<Posting>)
    requires s != [] && SortedByFileId(s)
    ensures GroupsOf(Groups(s), s)
    ensures GroupIds(Groups(s))[|Groups(s)| - 1] == s[|s| - 1].fileId
  {
    if |s| == 1 {
      assert s == [s[0]];
      GroupsSingle(s[0]);
    } else {
      var p := s[..|s| - 1];
      var x := s[|s| - 1];
      assert s == p + [x];
      assert SortedByFileId(p) by {
        forall i, j | 0 <= i < j < |p| ensures p[i].fileId <= p[j].fileId {
          assert p[i] == s[i] && p[j] == s[j];
        }
      }
      GroupsSpec(p);
      GroupsSpecStep(p, x);
    }
  }

  /** One more posting, no smaller than those before it, keeps the grouping right. */
  lemma GroupsSpecStep(p: seq<Posting>, x: Posting)
    requires p != [] && SortedByFileId(p + [x])
    requires GroupsOf(Groups(p), p)
    requires GroupIds(Groups(p))[|Groups(p)| - 1] == p[|p| - 1].fileId
    ensures GroupsOf(Groups(p + [x]), p + [x])
    ensures GroupIds(Groups(p + [x]))[|Groups(p + [x])| - 1] == x.fileId
  {
    var gp: seq<seq<Posting>> := Groups(p);
    if x.fileId == GroupIds(gp)[|gp| - 1] {
      GroupsSpecJoin(p, x);
    } else {
      assert forall i :: 0 <= i < |p| ==> p[i].fileId < x.fileId by {
        forall i | 0 <= i < |p|
          ensures p[i].fileId < x.fileId
        {
          assert (p + [x])[i] == p[i] && (p + [x])[|p| - 1] == p[|p| - 1] && (p + [x])[|p|] == x;
          assert p[i].fileId <= p[|p| - 1].fileId <= x.fileId;
        }
      }
      GroupsSpecOpen(p, x);
    }
  }

  lemma GroupsSpecJoin(p: seq<Posting>, x: Posting)
    requires p != [] && GroupsOf(Groups(p), p)
    requires x.fileId == GroupIds(Groups(p))[|Groups(p)| - 1]
    ensures GroupsOf(Groups(p + [x]), p + [x])
    ensures GroupIds(Groups(p + [x]))[|Groups(p + [x])| - 1] == x.fileId
  {
    var gp: seq<seq<Posting>> := Groups(p);
    var g := Groups(p + [x]);
    assert g == gp[..|gp| - 1] + [gp[|gp| - 1] + [x]] by {
      GroupsSnoc(p, x);
      assert GroupIds(gp)[|gp| - 1] == gp[|gp| - 1][0].fileId;
    }
    GroupsJoin(p, x, gp, g);
  }

  lemma GroupsSpecOpen(p: seq<Posting>, x: Posting)
    requires p != [] && GroupsOf(Groups(p), p)
    requires x.fileId != GroupIds(Groups(p))[|Groups(p)| - 1]
    requires forall i :: 0 <= i < |p| ==> p[i].fileId < x.fileId
    ensures GroupsOf(Groups(p + [x]), p + [x])
    ensures GroupIds(Groups(p + [x]))[|Groups(p + [x])| - 1] == x.fileId
  {
    var gp: seq<seq<Posting>> := Groups(p);
    var g := Groups(p + [x]);
    assert g == gp + [[x]] by {
      GroupsSnoc(p, x);
      assert GroupIds(gp)[|gp| - 1] == gp[|gp| - 1][0].fileId;
    }
    GroupsOpen(p, x, gp, g);
  }

  /** merge_hits_for_same_file applied to every group. */
  function MergeAll(groups: seq<seq<Posting>>): (m: seq<Posting>)
    requires forall k :: 0 <= k < |groups| ==> groups[k] != []
    ensures |m| == |groups|
  {
    seq(|groups|, k requires 0 <= k < |groups| => MergeHits(groups[k]).value)
  }

  lemma MergeAllSnoc(g: seq<seq<Posting>>, grp: seq<Posting>)
    requires forall k :: 0 <= k < |g| ==> g[k] != []
    requires grp != []
    ensures MergeAll(g + [grp]) == MergeAll(g) + [MergeHits(grp).value]
  {
  }

  // ---------------------------------------------------------------------------
  // sorted(merged, key=(-count, file_id))

  /** a comes strictly before b: a higher count, or the same count and a smaller file id. */
  predicate RankBefore(a: Posting, b: Posting)
  {
    a.count > b.count || (a.count == b.count && a.fileId < b.fileId)
  }

  predicate SortedByRank(s: seq<Posting>)
  {
    forall i, j :: 0 <= i < j < |s| ==> !RankBefore(s[j], s[i])
  }

  predicate DistinctIds(s: seq<Posting>)
  {
    forall i, j :: 0 <= i < j < |s| ==> s[i].fileId != s[j].fileId
  }

  function InsertByRank(s: seq<Posting>, x: Posting): (r: seq<Posting>)
    requires SortedByRank(s)
    ensures SortedByRank(r)
    ensures |r| == |s| + 1
    ensures forall p :: p in r <==> p in s || p == x
  {
    if s == [] then [x]
    else if RankBefore(x, s[0]) then [x] + s
    else
      var t := InsertByRank(s[1..], x);
      assert forall k :: 0 <= k < |t| ==> !RankBefore(t[k], s[0]) by {
        forall k | 0 <= k < |t|
          ensures !RankBefore(t[k], s[0])
        {
          assert t[k] in t;
          if t[k] != x {
            var i :| 0 <= i < |s[1..]| && s[1..][i] == t[k];
            assert s[1..][i] == s[i + 1];
          }
        }
      }
      [s[0]] + t
  }

  function SortByRank(m: seq<Posting>): (r: seq<Posting>)
    ensures SortedByRank(r)
    ensures |r| == |m|
    ensures forall p :: p in r <==> p in m
  {
    if m == [] then []
    else
      assert m == m[..|m| - 1] + [m[|m| - 1]];
      InsertByRank(SortByRank(m[..|m| - 1]), m[|m| - 1])
  }

  lemma {:induction false} InsertByRankDistinct(s: seq<Posting>, x: Posting)
    requires SortedByRank(s) && DistinctIds(s)
    requires forall i :: 0 <= i < |s| ==> s[i].fileId != x.fileId
    ensures DistinctIds(InsertByRank(s, x))
  {
    if s != [] && !RankBefore(x, s[0]) {
      var t := InsertByRank(s[1..], x);
      InsertByRankDistinct(s[1..], x);
      forall k | 0 <= k < |t|
        ensures t[k].fileId != s[0].fileId
      {
        assert t[k] in t;
        if t[k] != x {
          var i :| 0 <= i < |s[1..]| && s[1..][i] == t[k];
          assert s[1..][i] == s[i + 1];
        }
      }
    }
  }

  lemma {:induction false} SortByRankDistinct(m: seq<Posting>)
    requires DistinctIds(m)
    ensures DistinctIds(SortByRank(m))
  {
    if m != [] {
      var p := m[..|m| - 1];
      var x := m[|m| - 1];
      SortByRankDistinct(p);
      var sp := SortByRank(p);
      forall i | 0 <= i < |sp|
        ensures sp[i].fileId != x.fileId
      {
        assert sp[i] in sp;
        var k :| 0 <= k < |p| && p[k] == sp[i];
      }
      InsertByRankDistinct(sp, x);
    }
  }

  /** Sorted by rank with distinct file ids: the order is strict. */
  lemma RankStrict(r: seq<Posting>)
    requires SortedByRank(r) && DistinctIds(r)
    ensures forall i, j :: 0 <= i < j < |r| ==> RankBefore(r[i], r[j])
  {
  }

  // ---------------------------------------------------------------------------
  // Total counts

  function TotalCount(s: seq<Posting>): int
  {
    if s == [] then 0 else TotalCount(s[..|s| - 1]) + s[|s| - 1].count
  }

  lemma {:induction false} TotalCountAppend(a: seq<Posting>, b: seq<Posting>)
    ensures TotalCount(a + b) == TotalCount(a) + TotalCount(b)
    decreases |b|
  {
    if b == [] {
      assert a + b == a;
    } else {
      var b' := b[..|b| - 1];
      assert (a + b)[..|a + b| - 1] == a + b';
      assert (a + b)[|a + b| - 1] == b[|b| - 1];
      TotalCountAppend(a, b');
    }
  }

  lemma TotalCountCons(x: Posting, s: seq<Posting>)
    ensures TotalCount([x] + s) == x.count + TotalCount(s)
  {
    TotalCountAppend([x], s);
    assert [x][..0] == [];
  }

  lemma {:induction false} InsertByRankTotal(s: seq<Posting>, x: Posting)
    requires SortedByRank(s)
    ensures TotalCount(InsertByRank(s, x)) == TotalCount(s) + x.count
  {
    if s == [] {
      assert [x][..0] == [];
    } else if RankBefore(x, s[0]) {
      TotalCountCons(x, s);
    } else {
      InsertByRankTotal(s[1..], x);
      TotalCountCons(s[0], InsertByRank(s[1..], x));
      TotalCountCons(s[0], s[1..]);
      assert [s[0]] + s[1..] == s;
    }
  }

  lemma {:induction false} SortByRankTotal(m: seq<Posting>)
    ensures TotalCount(SortByRank(m)) == TotalCount(m)
  {
    if m != [] {
      SortByRankTotal(m[..|m| - 1]);
      InsertByRankTotal(SortByRank(m[..|m| - 1]), m[|m| - 1]);
    }
  }

  lemma {:induction false} InsertByFileIdTotal(s: seq<Posting>, x: Posting)
    requires SortedByFileId(s)
    ensures TotalCount(InsertByFileId(s, x)) == TotalCount(s) + x.count
  {
    if s == [] {
      assert [x][..0] == [];
    } else if x.fileId < s[0].fileId {
      TotalCountCons(x, s);
    } else {
      InsertByFileIdTotal(s[1..], x);
      TotalCountCons(s[0], InsertByFileId(s[1..], x));
      TotalCountCons(s[0], s[1..]);
      assert [s[0]] + s[1..] == s;
    }
  }

  lemma {:induction false} SortByFileIdTotal(ps: seq<Posting>)
    ensures TotalCount(SortByFileId(ps)) == TotalCount(ps)
  {
    if ps != [] {
      var p := ps[..|ps| - 1];
      SortByFileIdTotal(p);
      InsertByFileIdTotal(SortByFileId(p), ps[|ps| - 1]);
    }
  }

  lemma TotalCountSnoc(a: seq<Posting>, y: Posting)
    ensures TotalCount(a + [y]) == TotalCount(a) + y.count
  {
    assert (a + [y])[..|a|] == a;
  }

  /** Merging adds up the counts. */
  lemma MergeCount(grp: seq<Posting>)
    requires grp != []
    ensures MergeHits(grp).value.count == SumCounts(grp)
  {
  }

  lemma TotalCountJoin(front: seq<seq<Posting>>, last: seq<Posting>, x: Posting)
    requires forall k :: 0 <= k < |front| ==> front[k] != []
    requires last != []
    ensures TotalCount(MergeAll(front + [last + [x]])) == TotalCount(MergeAll(front + [last])) + x.count
  {
    var grp := last + [x];
    assert grp[..|grp| - 1] == last;
    MergeCount(grp);
    MergeCount(last);
    MergeAllSnoc(front, grp);
    MergeAllSnoc(front, last);
    TotalCountSnoc(MergeAll(front), MergeHits(grp).value);
    TotalCountSnoc(MergeAll(front), MergeHits(last).value);
  }

  lemma TotalCountOpen(g: seq<seq<Posting>>, x: Posting)
    requires forall k :: 0 <= k < |g| ==> g[k] != []
    ensures TotalCount(MergeAll(g + [[x]])) == TotalCount(MergeAll(g)) + x.count
  {
    assert [x][..0] == [];
    MergeCount([x]);
    MergeAllSnoc(g, [x]);
    TotalCountSnoc(MergeAll(g), MergeHits([x]).value);
  }

  lemma {:induction false} GroupsTotal(s: seq<Posting>)
    requires s != []
    ensures TotalCount(MergeAll(Groups(s))) == TotalCount(s)
  {
    if |s| == 1 {
      assert s == [] + [s[0]];
      assert Groups(s) == [] + [[s[0]]];
      TotalCountOpen([], s[0]);
      TotalCountSnoc([], s[0]);
    } else {
      var p := s[..|s| - 1];
      var x := s[|s| - 1];
      assert s == p + [x];
      GroupsTotal(p);
      GroupsTotalStep(p, x);
    }
  }

  lemma GroupsTotalStep(p: seq<Posting>, x: Posting)
    requires p != []
    requires TotalCount(MergeAll(Groups(p))) == TotalCount(p)
    ensures TotalCount(MergeAll(Groups(p + [x]))) == TotalCount(p + [x])
  {
    TotalCountSnoc(p, x);
    var gp: seq<seq<Posting>> := Groups(p);
    var n := |gp|;
    GroupsSnoc(p, x);
    if x.fileId == gp[n - 1][0].fileId {
      assert gp[..n - 1] + [gp[n - 1]] == gp;
      TotalCountJoin(gp[..n - 1], gp[n - 1], x);
    } else {
      TotalCountOpen(gp, x);
    }
  }

  // ---------------------------------------------------------------------------
  // normalize_postings

  /** The result of normalize_postings, stage by stage. */
  function NormalizedPostings(ps: seq<Posting>): seq<Posting>
  {
    if ps == [] then []
    else SortByRank(MergeAll(Groups(SortByFileId(ps))))
  }

  /** What normalize_postings promises: one posting per file id of the input,
      each the merge of that file's postings in input order, ranked strictly by
      descending count and then ascending file id. */
  ghost predicate IsNormalizationOf(r: seq<Posting>, ps: seq<Posting>)
  {
    && (forall i, j :: 0 <= i < j < |r| ==> RankBefore(r[i], r[j]))
    && (forall f :: f in FileIds(ps) <==> f in FileIds(r))
    && (forall i :: 0 <= i < |r| ==>
          Restrict(ps, r[i].fileId) != [] && r[i] == MergeHits(Restrict(ps, r[i].fileId)).value)
  }

  /** Each merged group is the merge of one file's postings, in input order. */
  lemma MergedGroupsPerFile(ps: seq<Posting>)
    requires ps != []
    ensures var g := Groups(SortByFileId(ps));
      var m := MergeAll(g);
      forall k :: 0 <= k < |m| ==>
        && m[k].fileId == GroupIds(g)[k]
        && Restrict(ps, m[k].fileId) != []
        && m[k] == MergeHits(Restrict(ps, m[k].fileId)).value
  {
    var s := SortByFileId(ps);
    var g := Groups(s);
    GroupsSpec(s);
    var ids := GroupIds(g);
    var m := MergeAll(g);
    forall k | 0 <= k < |m|
      ensures m[k].fileId == ids[k]
      ensures Restrict(ps, m[k].fileId) != [] && m[k] == MergeHits(Restrict(ps, m[k].fileId)).value
    {
      assert g[k] == Restrict(s, ids[k]);
      SortByFileIdRestrict(ps, ids[k]);
    }
  }

  lemma MergedId(g: seq<seq<Posting>>, k: int)
    requires forall k :: 0 <= k < |g| ==> g[k] != []
    requires 0 <= k < |g|
    ensures MergeAll(g)[k].fileId == GroupIds(g)[k]
  {
  }

  /** Merged groups carry the ids of their groups. */
  lemma MergedIdsDistinct(g: seq<seq<Posting>>)
    requires forall k :: 0 <= k < |g| ==> g[k] != []
    requires StrictlyIncreasing(GroupIds(g))
    ensures DistinctIds(MergeAll(g))
  {
    var m := MergeAll(g);
    var ids := GroupIds(g);
    forall i, j | 0 <= i < j < |m|
      ensures m[i].fileId != m[j].fileId
    {
      MergedId(g, i);
      MergedId(g, j);
    }
  }

  lemma MergedIdsSet(g: seq<seq<Posting>>)
    requires forall k :: 0 <= k < |g| ==> g[k] != []
    ensures forall f :: f in FileIds(MergeAll(g)) <==> f in GroupIds(g)
  {
    var m := MergeAll(g);
    var ids := GroupIds(g);
    forall f | f in FileIds(m)
      ensures f in ids
    {
      var q :| q in m && q.fileId == f;
      var k :| 0 <= k < |m| && m[k] == q;
      MergedId(g, k);
    }
    forall f | f in ids
      ensures f in FileIds(m)
    {
      var k :| 0 <= k < |ids| && ids[k] == f;
      MergedId(g, k);
      assert m[k] in m;
    }
  }

  /** The merged groups, before ranking: one merge per file, in file id order. */
  lemma MergedGroups(ps: seq<Posting>)
    requires ps != []
    ensures var m := MergeAll(Groups(SortByFileId(ps)));
      && DistinctIds(m)
      && FileIds(m) == FileIds(ps)
      && forall k :: 0 <= k < |m| ==>
           Restrict(ps, m[k].fileId) != [] && m[k] == MergeHits(Restrict(ps, m[k].fileId)).value
  {
    var s := SortByFileId(ps);
    var g := Groups(s);
    GroupsSpec(s);
    MergedGroupsPerFile(ps);
    MergedIdsDistinct(g);
    MergedIdsSet(g);
    assert FileIds(s) == FileIds(ps);
  }

  lemma NormalizedPostingsCharacterized(ps: seq<Posting>)
    ensures IsNormalizationOf(NormalizedPostings(ps), ps)
  {
    if ps != [] {
      var m := MergeAll(Groups(SortByFileId(ps)));
      MergedGroups(ps);
      var r := SortByRank(m);
      SortByRankDistinct(m);
      RankStrict(r);
      forall f | f in FileIds(m)
        ensures f in FileIds(r)
      {
        var q :| q in m && q.fileId == f;
        assert q in r;
      }
      forall f | f in FileIds(r)
        ensures f in FileIds(m)
      {
        var q :| q in r && q.fileId == f;
        assert q in m;
      }
      forall i | 0 <= i < |r|
        ensures Restrict(ps, r[i].fileId) != [] && r[i] == MergeHits(Restrict(ps, r[i].fileId)).value
      {
        assert r[i] in m;
        var k :| 0 <= k < |m| && m[k] == r[i];
      }
    }
  }

  /** Two rankings that both meet the promise are equal: normalize_postings is
      determined by its input's per-file merges. */
  lemma NormalizationUnique(ps: seq<Posting>, a: seq<Posting>, b: seq<Posting>)
    requires IsNormalizationOf(a, ps) && IsNormalizationOf(b, ps)
    ensures a == b
  {
    forall x | x in a
      ensures x in b
    {
      var i :| 0 <= i < |a| && a[i] == x;
      assert x.fileId in FileIds(b);
      var y :| y in b && y.fileId == x.fileId;
      var j :| 0 <= j < |b| && b[j] == y;
    }
    forall x | x in b
      ensures x in a
    {
      var j :| 0 <= j < |b| && b[j] == x;
      assert x.fileId in FileIds(a);
      var y :| y in a && y.fileId == x.fileId;
      var i :| 0 <= i < |a| && a[i] == y;
    }
    RankedUnique(a, b);
  }

  lemma {:induction false} RankedUnique(a: seq<Posting>, b: seq<Posting>)
    requires forall i, j :: 0 <= i < j < |a| ==> RankBefore(a[i], a[j])
    requires forall i, j :: 0 <= i < j < |b| ==> RankBefore(b[i], b[j])
    requires forall x :: x in a <==> x in b
    ensures a == b
    decreases |a|
  {
    SameElementsEmpty(a, b);
    if a != [] {
      assert a[0] in b && b[0] in a;
      var i :| 0 <= i < |a| && a[i] == b[0];
      var j :| 0 <= j < |b| && b[j] == a[0];
      assert a[0] == b[0];
      forall y
        ensures y in a[1..] <==> y in b[1..]
      {
        if y in a[1..] {
          var i :| 1 <= i < |a| && a[i] == y;
          assert y in a;
          var j :| 0 <= j < |b| && b[j] == y;
          assert j != 0 by { assert RankBefore(a[0], a[i]); }
          assert b[1..][j - 1] == y;
        }
        if y in b[1..] {
          var j :| 1 <= j < |b| && b[j] == y;
          assert y in b;
          var i :| 0 <= i < |a| && a[i] == y;
          assert i != 0 by { assert RankBefore(b[0], b[j]); }
          assert a[1..][i - 1] == y;
        }
      }
      RankedUnique(a[1..], b[1..]);
      assert a == [a[0]] + a[1..] && b == [b[0]] + b[1..];
    }
  }

  /** A posting that came out of a merge merges to itself. */
  lemma MergeSingle(x: Posting, ps: seq<Posting>)
    requires Restrict(ps, x.fileId) != [] && x == MergeHits(Restrict(ps, x.fileId)).value
    ensures MergeHits([x]).value == x
  {
    assert [x][..0] == [];
    assert ConcatUnits([x]) == x.unitIndex;
    assert SumCounts([x]) == x.count;
    StrictlyIncreasingUnique(NormalizeUnitNumbers(x.unitIndex), x.unitIndex);
  }

  lemma {:induction false} RestrictSingle(r: seq<Posting>, i: int)
    requires 0 <= i < |r| && DistinctIds(r)
    ensures Restrict(r, r[i].fileId) == [r[i]]
  {
    var f := r[i].fileId;
    var t := r[i + 1..];
    assert r == r[..i] + [r[i]] + t;
    RestrictAppend(r[..i] + [r[i]], t, f);
    RestrictSnoc(r[..i], r[i], f);
    RestrictNone(r[..i], f);
    forall k | 0 <= k < |t|
      ensures t[k].fileId != f
    {
      assert t[k] == r[i + 1 + k];
    }
    RestrictNone(t, f);
  }

  /** Merged postings are already normal: each file has one posting, whose unit
      numbers are increasing and whose count is its own. */
  lemma NormalizedPostingsIdempotent(ps: seq<Posting>)
    ensures NormalizedPostings(NormalizedPostings(ps)) == NormalizedPostings(ps)
  {
    var r := NormalizedPostings(ps);
    NormalizedPostingsCharacterized(ps);
    NormalizedPostingsCharacterized(r);
    assert DistinctIds(r) by {
      forall i, j | 0 <= i < j < |r|
        ensures r[i].fileId != r[j].fileId
      {
        assert RankBefore(r[i], r[j]);
        assert r[i] != r[j];
      }
    }
    forall i | 0 <= i < |r|
      ensures Restrict(r, r[i].fileId) != [] && r[i] == MergeHits(Restrict(r, r[i].fileId)).value
    {
      RestrictSingle(r, i);
      MergeSingle(r[i], ps);
    }
    assert IsNormalizationOf(r, r);
    NormalizationUnique(r, NormalizedPostings(r), r);
  }

  /** Normalising keeps the total number of occurrences. */
  lemma NormalizedPostingsTotal(ps: seq<Posting>)
    ensures TotalCount(NormalizedPostings(ps)) == TotalCount(ps)
  {
    if ps != [] {
      var s := SortByFileId(ps);
      SortByFileIdTotal(ps);
      GroupsTotal(s);
      SortByRankTotal(MergeAll(Groups(s)));
    }
  }

  /** The group the loop is still filling after reading s. */
  function Pending(s: seq<Posting>): (grp: seq<Posting>)
    requires s != []
    ensures grp != []
  {
    var g := Groups(s);
    g[|g| - 1]
  }

  /** The merges the loop has finished after reading s. */
  function Done(s: seq<Posting>): seq<Posting>
    requires s != []
  {
    var g := Groups(s);
    MergeAll(g[..|g| - 1])
  }

  /** One step of the loop: the next posting joins the pending group, or the
      pending group is merged and a new one begins. */
  lemma GroupsStep(s: seq<Posting>, x: Posting)
    requires s != []
    ensures x.fileId == Pending(s)[0].fileId ==>
      Done(s + [x]) == Done(s) && Pending(s + [x]) == Pending(s) + [x]
    ensures x.fileId != Pending(s)[0].fileId ==>
      Done(s + [x]) == Done(s) + [MergeHits(Pending(s)).value] && Pending(s + [x]) == [x]
  {
    var g := Groups(s);
    GroupsSnoc(s, x);
    if x.fileId != Pending(s)[0].fileId {
      var g' := Groups(s + [x]);
      assert g' == g + [[x]];
      assert g'[..|g'| - 1] == g == g[..|g| - 1] + [g[|g| - 1]];
      MergeAllSnoc(g[..|g| - 1], g[|g| - 1]);
    }
  }

  /** After the last posting, the pending group is merged too. */
  lemma GroupsFinish(s: seq<Posting>)
    requires s != []
    ensures MergeAll(Groups(s)) == Done(s) + [MergeHits(Pending(s)).value]
  {
    var g := Groups(s);
    assert g == g[..|g| - 1] + [g[|g| - 1]];
    MergeAllSnoc(g[..|g| - 1], g[|g| - 1]);
  }

  /** normalize_postings: the grouping loop over the postings sorted by file id. */
  method NormalizePostings(postings: seq<Posting>) returns (r: seq<Posting>)
    ensures r == NormalizedPostings(postings)
    ensures postings == [] ==> r == []
  {
    if postings == [] {
      return [];
    }
    var sorted := SortByFileId(postings);
    var merged: seq<Posting> := [];
    var current: seq<Posting> := [sorted[0]];
    assert sorted[..1] == [sorted[0]];
    for k := 1 to |sorted|
      invariant merged == Done(sorted[..k]) && current == Pending(sorted[..k])
    {
      var next := sorted[k];
      assert sorted[..k + 1] == sorted[..k] + [next];
      GroupsStep(sorted[..k], next);
      if next.fileId == current[0].fileId {
        current := current + [next];
      } else {
        var m := MergeHitsForSameFile(current);
        merged := merged + [m.value];
        current := [next];
      }
    }
    assert sorted[..|sorted|] == sorted;
    GroupsFinish(sorted);
    var m := MergeHitsForSameFile(current);
    merged := merged + [m.value];
    r := SortByRank(merged);
  }

  // ---------------------------------------------------------------------------
  // normalize_index

  /** normalize_index: every token's postings normalised, the tokens unchanged. */
  function NormalizeIndex(index: map<string, seq<Posting>>): (r: map<string, seq<Posting>>)
    ensures r.Keys == index.Keys
    ensures forall t :: t in r ==> IsNormalizationOf(r[t], index[t])
  {
    var r := map t | t in index :: NormalizedPostings(index[t]);
    assert forall t :: t in r ==> IsNormalizationOf(r[t], index[t]) by {
      forall t | t in r
        ensures IsNormalizationOf(r[t], index[t])
      {
        NormalizedPostingsCharacterized(index[t]);
      }
    }
    r
  }

  lemma NormalizeIndexIdempotent(index: map<string, seq<Posting>>)
    ensures NormalizeIndex(NormalizeIndex(index)) == NormalizeIndex(index)
  {
    var r := NormalizeIndex(index);
    forall t | t in r
      ensures NormalizeIndex(r)[t] == r[t]
    {
      NormalizedPostingsIdempotent(index[t]);
    }
  }
}
