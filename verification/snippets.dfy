/** The lines shown under a search result: make_snippets (lines sharing a token with
    the query) and make_exact_snippets (lines containing the query text). */
module Snippets {
  import opened Results
  import opened Text
  import opened Models
  import Tokenizer

  const DefaultMaxSnippets: int := 25
  const DefaultExactMaxSnippets: int := 3
  const DefaultMaxLen: int := 180
  /** The tokenizer settings make_snippets uses unless told otherwise. */
  const DefaultConfig: Tokenizer.Config := Tokenizer.Config(2, None, true)

  // ---------------------------------------------------------------------------
  // The loop both builders share: each line of the file is offered to a picker;
  // a picked line is appended; after every line, picked or not, the loop stops
  // as soon as the list holds exactly maxSnippets entries.
  // ---------------------------------------------------------------------------

  function Picked(o: Option<string>): seq<string> {
    if o.Some? then [o.value] else []
  }

  /** What the loop returns when it resumes at `lines` already holding `acc`. */
  function Collect(lines: seq<string>, pick: string -> Option<string>, maxSnippets: int, acc: seq<string>): seq<string>
    decreases |lines|
  {
    if lines == [] then acc
    else
      var next := acc + Picked(pick(lines[0]));
      if |next| == maxSnippets then next else Collect(lines[1..], pick, maxSnippets, next)
  }

  /** One turn of the loop, at line k. */
  lemma CollectStep(lines: seq<string>, k: int, pick: string -> Option<string>, maxSnippets: int, acc: seq<string>)
    requires 0 <= k < |lines|
    ensures var next := acc + Picked(pick(lines[k]));
      Collect(lines[k..], pick, maxSnippets, acc) ==
        if |next| == maxSnippets then next else Collect(lines[k + 1..], pick, maxSnippets, next)
  {
    assert lines[k..][0] == lines[k] && lines[k..][1..] == lines[k + 1..];
  }

  /** Every picked line, in file order, with no cap. */
  function Matches(lines: seq<string>, pick: string -> Option<string>): seq<string>
    decreases |lines|
  {
    if lines == [] then [] else Picked(pick(lines[0])) + Matches(lines[1..], pick)
  }

  /** Once the list is longer than the cap the cap can never be hit again. */
  lemma {:induction false} CollectUncapped(lines: seq<string>, pick: string -> Option<string>, maxSnippets: int, acc: seq<string>)
    requires maxSnippets < |acc|
    ensures Collect(lines, pick, maxSnippets, acc) == acc + Matches(lines, pick)
    decreases |lines|
  {
    if lines == [] {
      assert acc + [] == acc;
    } else {
      var next := acc + Picked(pick(lines[0]));
      CollectUncapped(lines[1..], pick, maxSnippets, next);
      assert next + Matches(lines[1..], pick) == acc + (Picked(pick(lines[0])) + Matches(lines[1..], pick));
    }
  }

  /** Below the cap, the loop yields the first maxSnippets of what it would collect. */
  lemma {:induction false} CollectCapped(lines: seq<string>, pick: string -> Option<string>, maxSnippets: int, acc: seq<string>)
    requires |acc| < maxSnippets
    ensures Collect(lines, pick, maxSnippets, acc) == Take(acc + Matches(lines, pick), maxSnippets)
    decreases |lines|
  {
    if lines == [] {
      assert acc + [] == acc;
    } else {
      var next := acc + Picked(pick(lines[0]));
      assert acc + Matches(lines, pick) == next + Matches(lines[1..], pick);
      if |next| == maxSnippets {
        assert (next + Matches(lines[1..], pick))[..maxSnippets] == next;
      } else {
        CollectCapped(lines[1..], pick, maxSnippets, next);
      }
    }
  }

  /** The first n entries of s (all of them when there are fewer). */
  function Take(s: seq<string>, n: int): (r: seq<string>)
    requires n >= 0
  {
    if |s| <= n then s else s[..n]
  }

  /** What the capped loop returns, in closed form. A cap of at least one keeps the first
      maxSnippets picked lines; a negative cap is never reached; a cap of zero is checked
      after the first line, so it yields nothing when that line is not picked and
      every picked line otherwise. In every case the result is a prefix of the
      uncapped list. */
  lemma {:induction false} CollectClosedForm(lines: seq<string>, pick: string -> Option<string>, maxSnippets: int)
    ensures maxSnippets >= 1 ==> Collect(lines, pick, maxSnippets, []) == Take(Matches(lines, pick), maxSnippets)
    ensures maxSnippets >= 1 ==> |Collect(lines, pick, maxSnippets, [])| <= maxSnippets
    ensures maxSnippets < 0 ==> Collect(lines, pick, maxSnippets, []) == Matches(lines, pick)
    ensures maxSnippets == 0 ==>
      Collect(lines, pick, maxSnippets, []) == (if lines != [] && pick(lines[0]).Some? then Matches(lines, pick) else [])
    ensures Collect(lines, pick, maxSnippets, []) <= Matches(lines, pick)
  {
    if maxSnippets >= 1 {
      CollectCapped(lines, pick, maxSnippets, []);
      assert [] + Matches(lines, pick) == Matches(lines, pick);
    } else if maxSnippets < 0 {
      CollectUncapped(lines, pick, maxSnippets, []);
      assert [] + Matches(lines, pick) == Matches(lines, pick);
    } else if lines != [] && pick(lines[0]).Some? {
      var next := [] + Picked(pick(lines[0]));
      CollectUncapped(lines[1..], pick, maxSnippets, next);
    }
  }

  /** The positions of the picked lines. */
  ghost function PickedLines(lines: seq<string>, pick: string -> Option<string>): seq<int>
    decreases |lines|
  {
    if lines == [] then []
    else
      var rest := PickedLines(lines[1..], pick);
      (if pick(lines[0]).Some? then [0] else []) + Shift(rest)
  }

  function Shift(s: seq<int>): (r: seq<int>)
    ensures |r| == |s| && forall k :: 0 <= k < |s| ==> r[k] == s[k] + 1
  {
    if s == [] then [] else [s[0] + 1] + Shift(s[1..])
  }

  lemma ShiftedMember(head: seq<int>, rest: seq<int>, j: int)
    requires j in rest
    ensures j + 1 in head + Shift(rest)
  {
    var k :| 0 <= k < |rest| && rest[k] == j;
    assert (head + Shift(rest))[|head| + k] == j + 1;
  }

  /** The positions are lines of the file, in strictly increasing order. */
  lemma {:induction false} PickedLinesAscending(lines: seq<string>, pick: string -> Option<string>)
    ensures forall k :: 0 <= k < |PickedLines(lines, pick)| ==> 0 <= PickedLines(lines, pick)[k] < |lines|
    ensures forall k, l :: 0 <= k < l < |PickedLines(lines, pick)| ==> PickedLines(lines, pick)[k] < PickedLines(lines, pick)[l]
    decreases |lines|
  {
    if lines != [] {
      PickedLinesAscending(lines[1..], pick);
    }
  }

  /** The k-th entry of Matches is what the picker made of the k-th picked line. */
  lemma {:induction false} PickedLinesMatch(lines: seq<string>, pick: string -> Option<string>)
    ensures |PickedLines(lines, pick)| == |Matches(lines, pick)|
    ensures forall k :: 0 <= k < |PickedLines(lines, pick)| ==>
      0 <= PickedLines(lines, pick)[k] < |lines| && pick(lines[PickedLines(lines, pick)[k]]) == Some(Matches(lines, pick)[k])
    decreases |lines|
  {
    if lines != [] {
      var tail := lines[1..];
      PickedLinesMatch(tail, pick);
      var rest := PickedLines(tail, pick);
      var head := if pick(lines[0]).Some? then [0] else [];
      var idx := head + Shift(rest);
      var m := Matches(lines, pick);
      assert PickedLines(lines, pick) == idx;
      assert m == Picked(pick(lines[0])) + Matches(tail, pick);
      forall k | 0 <= k < |idx|
        ensures 0 <= idx[k] < |lines| && pick(lines[idx[k]]) == Some(m[k])
      {
        if k >= |head| {
          ShiftedPick(lines, pick, head, rest, k);
        }
      }
    }
  }

  lemma ShiftedPick(lines: seq<string>, pick: string -> Option<string>, head: seq<int>, rest: seq<int>, k: int)
    requires lines != [] && |head| == |Picked(pick(lines[0]))|
    requires |rest| == |Matches(lines[1..], pick)|
    requires forall j :: 0 <= j < |rest| ==>
      0 <= rest[j] < |lines| - 1 && pick(lines[1..][rest[j]]) == Some(Matches(lines[1..], pick)[j])
    requires |head| <= k < |head| + |rest|
    ensures var idx := head + Shift(rest);
      0 <= idx[k] < |lines| && pick(lines[idx[k]]) == Some((Picked(pick(lines[0])) + Matches(lines[1..], pick))[k])
  {
    var j := k - |head|;
    var tail := lines[1..];
    var m := Matches(tail, pick);
    assert (head + Shift(rest))[k] == rest[j] + 1;
    assert 0 <= rest[j] < |tail| && pick(tail[rest[j]]) == Some(m[j]);
    assert lines[rest[j] + 1] == tail[rest[j]];
    assert (Picked(pick(lines[0])) + m)[k] == m[j];
  }

  /** Every line the picker accepts is among the positions. */
  lemma {:induction false} PickedLinesComplete(lines: seq<string>, pick: string -> Option<string>)
    ensures forall i :: 0 <= i < |lines| && pick(lines[i]).Some? ==> i in PickedLines(lines, pick)
    decreases |lines|
  {
    if lines != [] {
      var tail := lines[1..];
      PickedLinesComplete(tail, pick);
      var rest := PickedLines(tail, pick);
      var head := if pick(lines[0]).Some? then [0] else [];
      var idx := head + Shift(rest);
      assert PickedLines(lines, pick) == idx;
      forall i | 0 <= i < |lines| && pick(lines[i]).Some?
        ensures i in idx
      {
        if i == 0 {
          assert idx[0] == 0;
        } else {
          assert tail[i - 1] == lines[i];
          ShiftedMember(head, rest, i - 1);
        }
      }
    }
  }

  // ---------------------------------------------------------------------------
  // make_snippets
  // ---------------------------------------------------------------------------

  /** What make_snippets makes of one raw line: the stripped line, cut to maxLen when
      longer, if one of its tokens is a query token; nothing otherwise. */
  function SnippetOf(raw: string, query: set<string>, maxLen: int, cfg: Tokenizer.Config): (r: Option<string>)
    ensures r.Some? ==> r.value <= Strip(raw)
    ensures r.Some? && maxLen >= 0 ==> |r.value| == if |Strip(raw)| <= maxLen then |Strip(raw)| else maxLen
  {
    var line := Strip(raw);
    if exists t :: t in Tokenizer.TokenizeLine(line, cfg) && t in query then
      Some(if |line| > maxLen then PySlicePrefix(line, maxLen) else line)
    else None
  }

  function SnippetPick(query: set<string>, maxLen: int, cfg: Tokenizer.Config): string -> Option<string> {
    raw => SnippetOf(raw, query, maxLen, cfg)
  }

  /** The token loop over one stripped line: stops at the first token in the query set. */
  method SnippetLine(raw: string, query: set<string>, maxLen: int, cfg: Tokenizer.Config) returns (r: Option<string>)
    ensures r == SnippetOf(raw, query, maxLen, cfg)
  {
    var line := Strip(raw);
    var tokens := Tokenizer.TokenizeLine(line, cfg);
    var found := AnyInQuery(tokens, query);
    if found {
      if |line| > maxLen {
        line := PySlicePrefix(line, maxLen);
      }
      return Some(line);
    }
    return None;
  }

  /** Whether some token of the line is in the query set, scanning until the first one. */
  method AnyInQuery(tokens: seq<string>, query: set<string>) returns (found: bool)
    ensures found <==> exists t :: t in tokens && t in query
  {
    var t := 0;
    while t < |tokens|
      invariant 0 <= t <= |tokens|
      invariant forall u :: 0 <= u < t ==> tokens[u] !in query
    {
      if tokens[t] in query {
        assert tokens[t] in tokens;
        return true;
      }
      t := t + 1;
    }
    return false;
  }

  /** One turn of the make_snippets loop, at line k, with what SnippetLine made of it. */
  lemma SnippetStep(lines: seq<string>, k: int, query: set<string>, maxLen: int, cfg: Tokenizer.Config,
                    maxSnippets: int, acc: seq<string>, next: seq<string>)
    requires 0 <= k < |lines| && next == acc + Picked(SnippetOf(lines[k], query, maxLen, cfg))
    ensures var pick := SnippetPick(query, maxLen, cfg);
      Collect(lines[k..], pick, maxSnippets, acc) ==
        if |next| == maxSnippets then next else Collect(lines[k + 1..], pick, maxSnippets, next)
  {
    var pick := SnippetPick(query, maxLen, cfg);
    assert pick(lines[k]) == SnippetOf(lines[k], query, maxLen, cfg);
    CollectStep(lines, k, pick, maxSnippets, acc);
  }

  /** The body of the make_snippets loop: appends the snippet of the line, if any. */
  method AppendSnippet(raw: string, query: set<string>, maxLen: int, cfg: Tokenizer.Config, matched: seq<string>)
    returns (next: seq<string>)
    ensures next == matched + Picked(SnippetOf(raw, query, maxLen, cfg))
  {
    var snippet := SnippetLine(raw, query, maxLen, cfg);
    next := matched;
    if snippet.Some? {
      next := next + [snippet.value];
    }
  }

  /** make_snippets: reading a missing file fails; otherwise the capped loop over its
      lines with the make_snippets picker. */
  method MakeSnippets(path: string, disk: Disk, queryTokens: seq<string>, maxSnippets: int, maxLen: int, cfg: Tokenizer.Config)
    returns (r: Result<seq<string>, ReadError>)
    ensures path !in disk <==> r == Failure(FileNotFound(path))
    ensures path in disk ==>
      r == Success(Collect(disk[path].lines, SnippetPick(Elements(queryTokens), maxLen, cfg), maxSnippets, []))
  {
    if path !in disk {
      return Failure(FileNotFound(path));
    }
    var query := Elements(queryTokens);
    var lines := disk[path].lines;
    ghost var pick := SnippetPick(query, maxLen, cfg);
    var matched: seq<string> := [];
    var k := 0;
    while k < |lines|
      invariant 0 <= k <= |lines|
      invariant Collect(lines[k..], pick, maxSnippets, matched) == Collect(lines, pick, maxSnippets, [])
    {
      var next := AppendSnippet(lines[k], query, maxLen, cfg, matched);
      SnippetStep(lines, k, query, maxLen, cfg, maxSnippets, matched, next);
      matched := next;
      if |matched| == maxSnippets {
        return Success(matched);
      }
      k := k + 1;
    }
    return Success(matched);
  }

  /** s is what make_snippets may report for the raw line: the line shares a token with
      the query, and s is a prefix of the stripped line of at most maxLen characters. */
  ghost predicate IsSnippetOf(s: string, raw: string, queryTokens: seq<string>, maxLen: int, cfg: Tokenizer.Config) {
    && (exists t :: t in Tokenizer.TokenizeLine(Strip(raw), cfg) && t in queryTokens)
    && s <= Strip(raw)
    && (maxLen >= 0 ==> |s| <= maxLen)
  }

  lemma PickedIsSnippet(raw: string, s: string, queryTokens: seq<string>, maxLen: int, cfg: Tokenizer.Config)
    requires SnippetOf(raw, Elements(queryTokens), maxLen, cfg) == Some(s)
    ensures IsSnippetOf(s, raw, queryTokens, maxLen, cfg)
  {
    var t :| t in Tokenizer.TokenizeLine(Strip(raw), cfg) && t in Elements(queryTokens);
    assert t in queryTokens;
  }

  /** Every snippet is a stripped line of the file that shares a token with the query,
      cut to at most maxLen characters; a cap of at least one bounds their number.
      PickedLinesAscending gives their order. */
  lemma {:induction false} SnippetsSpec(lines: seq<string>, queryTokens: seq<string>, maxSnippets: int, maxLen: int, cfg: Tokenizer.Config)
    ensures var r := Collect(lines, SnippetPick(Elements(queryTokens), maxLen, cfg), maxSnippets, []);
      && (maxSnippets >= 1 ==> |r| <= maxSnippets)
      && forall k :: 0 <= k < |r| ==> exists i :: 0 <= i < |lines| && IsSnippetOf(r[k], lines[i], queryTokens, maxLen, cfg)
  {
    var pick := SnippetPick(Elements(queryTokens), maxLen, cfg);
    var r := Collect(lines, pick, maxSnippets, []);
    CollectClosedForm(lines, pick, maxSnippets);
    PickedLinesMatch(lines, pick);
    var idx := PickedLines(lines, pick);
    var m := Matches(lines, pick);
    forall k | 0 <= k < |r|
      ensures exists i :: 0 <= i < |lines| && IsSnippetOf(r[k], lines[i], queryTokens, maxLen, cfg)
    {
      assert r[k] == m[k];
      var i := idx[k];
      assert pick(lines[i]) == Some(r[k]);
      PickedIsSnippet(lines[i], r[k], queryTokens, maxLen, cfg);
    }
  }

  /** With the defaults, at most 25 snippets of at most 180 characters each. */
  lemma DefaultSnippetsBounded(lines: seq<string>, queryTokens: seq<string>)
    ensures var r := Collect(lines, SnippetPick(Elements(queryTokens), DefaultMaxLen, DefaultConfig), DefaultMaxSnippets, []);
      |r| <= 25 && forall k :: 0 <= k < |r| ==> |r[k]| <= 180
  {
    SnippetsSpec(lines, queryTokens, DefaultMaxSnippets, DefaultMaxLen, DefaultConfig);
  }

  // ---------------------------------------------------------------------------
  // make_exact_snippets
  // ---------------------------------------------------------------------------

  /** What make_exact_snippets makes of one raw line: if the query text occurs in it
      (newline included), the line without its newlines, cut to maxLen. */
  function ExactOf(raw: string, queryText: string, maxLen: int): (r: Option<string>)
    ensures r.Some? <==> Contains(raw, queryText)
    ensures r.Some? ==> r.value <= RemoveAll(raw, '\n') && '\n' !in r.value
    ensures r.Some? && maxLen >= 0 ==> |r.value| <= maxLen
  {
    if Contains(raw, queryText) then
      var line := RemoveAll(raw, '\n');
      var cut := PySlicePrefix(line, maxLen);
      assert forall x :: x in cut ==> x in line;
      Some(cut)
    else None
  }

  function ExactPick(queryText: string, maxLen: int): string -> Option<string> {
    raw => ExactOf(raw, queryText, maxLen)
  }

  /** make_exact_snippets: reading a missing file fails; otherwise the capped loop over
      its lines with the exact picker. */
  method MakeExactSnippets(path: string, disk: Disk, queryText: string, maxSnippets: int, maxLen: int)
    returns (r: Result<seq<string>, ReadError>)
    ensures path !in disk <==> r == Failure(FileNotFound(path))
    ensures path in disk ==> r == Success(Collect(disk[path].lines, ExactPick(queryText, maxLen), maxSnippets, []))
  {
    if path !in disk {
      return Failure(FileNotFound(path));
    }
    var lines := disk[path].lines;
    ghost var pick := ExactPick(queryText, maxLen);
    var snippets: seq<string> := [];
    var k := 0;
    while k < |lines|
      invariant 0 <= k <= |lines|
      invariant Collect(lines[k..], pick, maxSnippets, snippets) == Collect(lines, pick, maxSnippets, [])
    {
      var line := lines[k];
      assert pick(line) == ExactOf(line, queryText, maxLen);
      CollectStep(lines, k, pick, maxSnippets, snippets);
      ghost var before := snippets;
      if Contains(line, queryText) {
        line := RemoveAll(line, '\n');
        snippets := snippets + [PySlicePrefix(line, maxLen)];
        assert ExactOf(lines[k], queryText, maxLen) == Some(PySlicePrefix(line, maxLen));
      } else {
        assert ExactOf(lines[k], queryText, maxLen) == None;
      }
      assert snippets == before + Picked(pick(lines[k]));
      if |snippets| == maxSnippets {
        return Success(snippets);
      }
      k := k + 1;
    }
    return Success(snippets);
  }

  /** Every exact snippet is a line of the file containing the query text, with its
      newlines removed and cut to maxLen; a cap of at least one bounds their number. */
  lemma {:induction false} ExactSnippetsSpec(lines: seq<string>, queryText: string, maxSnippets: int, maxLen: int)
    ensures var r := Collect(lines, ExactPick(queryText, maxLen), maxSnippets, []);
      && (maxSnippets >= 1 ==> |r| <= maxSnippets)
      && forall k :: 0 <= k < |r| ==> exists i :: (0 <= i < |lines|
           && Contains(lines[i], queryText)
           && r[k] <= RemoveAll(lines[i], '\n') && '\n' !in r[k]
           && (maxLen >= 0 ==> |r[k]| <= maxLen))
  {
    var pick := ExactPick(queryText, maxLen);
    var r := Collect(lines, pick, maxSnippets, []);
    CollectClosedForm(lines, pick, maxSnippets);
    PickedLinesMatch(lines, pick);
    var idx := PickedLines(lines, pick);
    var m := Matches(lines, pick);
    forall k | 0 <= k < |r|
      ensures exists i :: (0 <= i < |lines|
           && Contains(lines[i], queryText)
           && r[k] <= RemoveAll(lines[i], '\n') && '\n' !in r[k]
           && (maxLen >= 0 ==> |r[k]| <= maxLen))
    {
      assert r[k] == m[k];
      var i := idx[k];
      assert pick(lines[i]) == ExactOf(lines[i], queryText, maxLen) == Some(r[k]);
      assert Contains(lines[i], queryText);
    }
  }

  /** Every line containing the query text yields a snippet while the cap is not reached:
      with a cap of at least one, the result is all matching lines or exactly the cap. */
  lemma ExactSnippetsComplete(lines: seq<string>, queryText: string, maxSnippets: int, maxLen: int)
    requires maxSnippets >= 1
    ensures var r := Collect(lines, ExactPick(queryText, maxLen), maxSnippets, []);
      r == Matches(lines, ExactPick(queryText, maxLen)) || |r| == maxSnippets
  {
    CollectClosedForm(lines, ExactPick(queryText, maxLen), maxSnippets);
  }
}
