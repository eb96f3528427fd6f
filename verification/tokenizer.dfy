/** Turning a line of text into index tokens: character normalisation,
    whitespace splitting and filtering (length, stopwords, repeats). */
module Tokenizer {
  import opened Results
  import opened Text

  /** The tokenizer settings that indexing and querying share.
      stopwords == None is the source's `stopwords=None`. */
  datatype Config = Config(minLength: int, stopwords: Option<set<string>>, keepNumbers: bool)

  /** `stopwords or set()`: None and the empty set both mean no stopwords. */
  function StopSet(stopwords: Option<set<string>>): set<string>
  {
    match stopwords
    case None => {}
    case Some(s) => s
  }

  /** A character that may appear in a token. */
  predicate IsTokenChar(c: char, keepNumbers: bool)
  {
    IsLowerAlpha(c) || (keepNumbers && IsDigit(c))
  }

  predicate IsTokenString(s: string, keepNumbers: bool)
  {
    forall i :: 0 <= i < |s| ==> IsTokenChar(s[i], keepNumbers)
  }

  /** The fate of one character: letters are lowercased, digits kept only with keepNumbers,
      whitespace kept, everything else becomes a space. */
  function NormalizeChar(c: char, keepNumbers: bool): char
  {
    if IsAlpha(c) then Lower(c)
    else if IsDigit(c) then (if keepNumbers then c else ' ')
    else if IsSpace(c) then c
    else ' '
  }

  /** normalize_text: each character outside [a-zA-Z0-9\s] becomes one space, then the text
      is lowercased and, without keepNumbers, digits become spaces too. */
  function NormalizeText(text: string, keepNumbers: bool): (r: string)
    ensures |r| == |text|
    ensures forall i :: 0 <= i < |r| ==> IsTokenChar(r[i], keepNumbers) || IsSpace(r[i])
    ensures forall i :: 0 <= i < |r| ==> IsAlpha(text[i]) ==> r[i] == Lower(text[i])
    ensures forall i :: 0 <= i < |r| ==> IsDigit(text[i]) ==> r[i] == if keepNumbers then text[i] else ' '
    ensures forall i :: 0 <= i < |r| ==> !IsAlnum(text[i]) ==> IsSpace(r[i])
  {
    seq(|text|, i requires 0 <= i < |text| => NormalizeChar(text[i], keepNumbers))
  }

  /** The longest prefix of s without whitespace. */
  function Word(s: string): (w: string)
    ensures |w| <= |s| && w == s[..|w|]
    ensures NoSpace(w)
    ensures |w| == |s| || IsSpace(s[|w|])
  {
    if s == [] || IsSpace(s[0]) then [] else [s[0]] + Word(s[1..])
  }

  /** split_to_tokens: str.split() with no argument, the maximal runs of non-whitespace. */
  function SplitToTokens(s: string): (r: seq<string>)
    ensures forall k :: 0 <= k < |r| ==> r[k] != [] && NoSpace(r[k])
    decreases |s|
  {
    if s == [] then []
    else if IsSpace(s[0]) then SplitToTokens(s[1..])
    else
      var w := Word(s);
      [w] + SplitToTokens(s[|w|..])
  }

  /** The text with its leading and trailing whitespace dropped and every inner run of
      whitespace squeezed to one space, read off character by character. */
  function Squeeze(s: string): string
    decreases |s|
  {
    if s == [] then []
    else if IsSpace(s[0]) then Squeeze(s[1..])
    else
      var rest := Squeeze(s[1..]);
      [s[0]] + (if |s| > 1 && IsSpace(s[1]) && rest != [] then " " else []) + rest
  }

  /** Squeezing text that starts with a word gives the word, then one space and the squeezed
      remainder when anything remains. */
  lemma {:induction false} SqueezeWord(s: string)
    requires s != [] && !IsSpace(s[0])
    ensures SqueezeWordHolds(s)
    decreases |s|
  {
    if |s| == 1 {
      SqueezeOneChar(s);
    } else if IsSpace(s[1]) {
      SqueezeWordBeforeSpace(s);
    } else {
      SqueezeWord(s[1..]);
      SqueezeWordStep(s);
    }
  }

  /** The equation SqueezeWord proves, stated once for its three cases. */
  predicate SqueezeWordHolds(s: string)
  {
    var w := Word(s);
    var rest := Squeeze(s[|w|..]);
    Squeeze(s) == w + (if rest != [] then " " + rest else [])
  }

  lemma SqueezeOneChar(s: string)
    requires |s| == 1 && !IsSpace(s[0])
    ensures SqueezeWordHolds(s)
  {
    assert s[1..] == [];
    assert Squeeze(s) == [s[0]];
    assert Word(s) == s && s[|s|..] == [];
  }

  lemma SqueezeWordBeforeSpace(s: string)
    requires |s| > 1 && !IsSpace(s[0]) && IsSpace(s[1])
    ensures SqueezeWordHolds(s)
  {
    var tail := Squeeze(s[1..]);
    assert s[1..][0] == s[1];
    assert Word(s) == [s[0]];
    assert Squeeze(s) == [s[0]] + (if tail != [] then " " else []) + tail;
  }

  lemma SqueezeWordStep(s: string)
    requires |s| > 1 && !IsSpace(s[0]) && !IsSpace(s[1])
    requires SqueezeWordHolds(s[1..])
    ensures SqueezeWordHolds(s)
  {
    var w' := Word(s[1..]);
    assert s[1..][0] == s[1];
    assert Squeeze(s) == [s[0]] + Squeeze(s[1..]);
    assert Word(s) == [s[0]] + w';
    assert s[1..][|w'|..] == s[|Word(s)|..];
  }

  /** str.split() followed by " ".join gives the squeezed text: the pieces are exactly the
      words of s, in order. */
  lemma {:induction false} SplitSqueeze(s: string)
    ensures Join(SplitToTokens(s), " ") == Squeeze(s)
    decreases |s|
  {
    if s != [] {
      if IsSpace(s[0]) {
        SplitSqueeze(s[1..]);
      } else {
        var w := Word(s);
        var rest := s[|w|..];
        var r := SplitToTokens(rest);
        SplitSqueeze(rest);
        SqueezeWord(s);
        assert SplitToTokens(s) == [w] + r;
        assert ([w] + r)[1..] == r;
        if r != [] {
          assert |Join(r, " ")| >= |r[0]| > 0;
        }
      }
    }
  }

  /** The pieces of str.split() are the only word sequence that joins to the squeezed text. */
  lemma SplitUnique(s: string, ts: seq<string>)
    requires forall k :: 0 <= k < |ts| ==> ts[k] != [] && NoSpace(ts[k])
    requires Join(ts, " ") == Squeeze(s)
    ensures ts == SplitToTokens(s)
  {
    SplitJoin(ts);
    SplitSqueeze(s);
    SplitJoin(SplitToTokens(s));
  }

  /** Splitting text whose non-space characters are token characters gives token strings. */
  lemma {:induction false} SplitToTokensChars(s: string, keepNumbers: bool)
    requires forall i :: 0 <= i < |s| ==> IsTokenChar(s[i], keepNumbers) || IsSpace(s[i])
    ensures forall k :: 0 <= k < |SplitToTokens(s)| ==> IsTokenString(SplitToTokens(s)[k], keepNumbers)
    decreases |s|
  {
    if s != [] {
      if IsSpace(s[0]) {
        SplitToTokensChars(s[1..], keepNumbers);
      } else {
        var w := Word(s);
        SplitToTokensChars(s[|w|..], keepNumbers);
      }
    }
  }

  /** Whether filter_tokens keeps a token at all. */
  predicate Keep(t: string, stop: set<string>, minLength: int)
  {
    |t| >= minLength && t !in stop
  }

  /** The position where t first occurs in s. */
  function FirstIndex(s: seq<string>, t: string): (k: nat)
    requires t in s
    ensures k < |s| && s[k] == t && t !in s[..k]
  {
    if t in s[..|s| - 1] then FirstIndex(s[..|s| - 1], t) else |s| - 1
  }

  /** The tokens filter_tokens returns: the kept tokens, each once, as its loop builds them. */
  function Filtered(tokens: seq<string>, stop: set<string>, minLength: int): (r: seq<string>)
    ensures forall t :: t in r <==> t in tokens && Keep(t, stop, minLength)
    ensures Distinct(r)
    ensures forall i, j :: 0 <= i < j < |r| ==> FirstIndex(tokens, r[i]) < FirstIndex(tokens, r[j])
  {
    if tokens == [] then []
    else
      var prefix := tokens[..|tokens| - 1];
      var p := Filtered(prefix, stop, minLength);
      var t := tokens[|tokens| - 1];
      assert forall u :: u in prefix ==> FirstIndex(tokens, u) == FirstIndex(prefix, u);
      if Keep(t, stop, minLength) && t !in p then
        assert t !in prefix;
        assert FirstIndex(tokens, t) == |tokens| - 1;
        p + [t]
      else p
  }

  /** filter_tokens: one pass over the tokens, appending each kept token not yet appended. */
  method FilterTokens(tokens: seq<string>, stopwords: Option<set<string>>, minLength: int)
    returns (filtered: seq<string>)
    ensures filtered == Filtered(tokens, StopSet(stopwords), minLength)
  {
    var stop := StopSet(stopwords);
    filtered := [];
    for k := 0 to |tokens|
      invariant filtered == Filtered(tokens[..k], stop, minLength)
    {
      var tok := tokens[k];
      assert tokens[..k + 1][..k] == tokens[..k];
      if |tok| >= minLength && tok !in stop && tok !in filtered {
        filtered := filtered + [tok];
      }
    }
    assert tokens[..|tokens|] == tokens;
  }

  /** tokenize_line: normalise, split, filter. */
  function TokenizeLine(line: string, cfg: Config): (r: seq<string>)
    ensures forall k :: 0 <= k < |r| ==> |r[k]| >= cfg.minLength && r[k] !in StopSet(cfg.stopwords)
    ensures forall k :: 0 <= k < |r| ==> r[k] != [] && IsTokenString(r[k], cfg.keepNumbers)
    ensures Distinct(r)
  {
    var normalized := NormalizeText(line, cfg.keepNumbers);
    var raw := SplitToTokens(normalized);
    var r := Filtered(raw, StopSet(cfg.stopwords), cfg.minLength);
    SplitToTokensChars(normalized, cfg.keepNumbers);
    assert forall k :: 0 <= k < |r| ==> r[k] in raw;
    r
  }

  /** The tokens of a line are the words of its normalised text that pass the filter,
      each once, in the order of their first occurrence. */
  lemma TokenizeLineSpec(line: string, cfg: Config)
    ensures var words := SplitToTokens(NormalizeText(line, cfg.keepNumbers));
      var r := TokenizeLine(line, cfg);
      && (forall t :: t in r <==> t in words && Keep(t, StopSet(cfg.stopwords), cfg.minLength))
      && (forall i, j :: 0 <= i < j < |r| ==> FirstIndex(words, r[i]) < FirstIndex(words, r[j]))
  {
  }

  /** On ASCII text without keepNumbers no token holds a digit. */
  lemma NoDigitsWithoutKeepNumbers(line: string, cfg: Config, k: nat, i: nat)
    requires !cfg.keepNumbers
    requires k < |TokenizeLine(line, cfg)| && i < |TokenizeLine(line, cfg)[k]|
    ensures !IsDigit(TokenizeLine(line, cfg)[k][i])
  {
  }

  // ---------------------------------------------------------------------------
  // Re-tokenising the joined tokens gives the tokens back.

  lemma {:induction false} NormalizeTextFixed(s: string, keepNumbers: bool)
    requires forall i :: 0 <= i < |s| ==> IsTokenChar(s[i], keepNumbers) || s[i] == ' '
    ensures NormalizeText(s, keepNumbers) == s
  {
  }

  lemma {:induction false} WordOfJoin(t: string, rest: string)
    requires NoSpace(t)
    requires rest == [] || IsSpace(rest[0])
    ensures Word(t + rest) == t
    decreases |t|
  {
    if t != [] {
      assert (t + rest)[1..] == t[1..] + rest;
      WordOfJoin(t[1..], rest);
    }
  }

  lemma {:induction false} SplitJoin(ts: seq<string>)
    requires forall k :: 0 <= k < |ts| ==> ts[k] != [] && NoSpace(ts[k])
    ensures SplitToTokens(Join(ts, " ")) == ts
    decreases |ts|
  {
    if |ts| == 1 {
      WordOfJoin(ts[0], []);
      assert ts[0] + [] == ts[0];
      assert ts[0][|ts[0]|..] == [];
    } else if |ts| > 1 {
      var rest := Join(ts[1..], " ");
      var s := ts[0] + " " + rest;
      WordOfJoin(ts[0], " " + rest);
      assert ts[0] + (" " + rest) == s;
      assert s[|ts[0]|..] == " " + rest;
      assert (" " + rest)[1..] == rest;
      SplitJoin(ts[1..]);
    }
  }

  lemma {:induction false} JoinChars(ts: seq<string>, keepNumbers: bool)
    requires forall k :: 0 <= k < |ts| ==> IsTokenString(ts[k], keepNumbers)
    ensures forall i :: 0 <= i < |Join(ts, " ")| ==>
              IsTokenChar(Join(ts, " ")[i], keepNumbers) || Join(ts, " ")[i] == ' '
    decreases |ts|
  {
    if |ts| > 1 {
      JoinChars(ts[1..], keepNumbers);
      var rest := Join(ts[1..], " ");
      var s := ts[0] + " " + rest;
      forall i | 0 <= i < |s| ensures IsTokenChar(s[i], keepNumbers) || s[i] == ' ' {
        if i < |ts[0]| {
          assert s[i] == ts[0][i];
        } else if i > |ts[0]| {
          assert s[i] == rest[i - |ts[0]| - 1];
        }
      }
    }
  }

  lemma {:induction false} FilteredIdentity(ts: seq<string>, stop: set<string>, minLength: int)
    requires Distinct(ts)
    requires forall k :: 0 <= k < |ts| ==> Keep(ts[k], stop, minLength)
    ensures Filtered(ts, stop, minLength) == ts
    decreases |ts|
  {
    if ts != [] {
      var prefix := ts[..|ts| - 1];
      FilteredIdentity(prefix, stop, minLength);
    }
  }

  /** Tokenising the space-joined tokens with the same settings returns the same tokens. */
  lemma TokenizeJoinedIdempotent(line: string, cfg: Config)
    ensures TokenizeLine(Join(TokenizeLine(line, cfg), " "), cfg) == TokenizeLine(line, cfg)
  {
    var ts := TokenizeLine(line, cfg);
    var joined := Join(ts, " ");
    JoinChars(ts, cfg.keepNumbers);
    NormalizeTextFixed(joined, cfg.keepNumbers);
    forall k | 0 <= k < |ts| ensures NoSpace(ts[k]) {
      assert IsTokenString(ts[k], cfg.keepNumbers);
    }
    SplitJoin(ts);
    FilteredIdentity(ts, StopSet(cfg.stopwords), cfg.minLength);
  }

  lemma SplitWord(w: string, rest: string)
    requires w != [] && NoSpace(w)
    requires rest == [] || IsSpace(rest[0])
    ensures SplitToTokens(w + rest) == [w] + SplitToTokens(rest)
  {
    WordOfJoin(w, rest);
    assert (w + rest)[|w|..] == rest;
  }

  lemma SplitSpace(c: char, rest: string)
    requires IsSpace(c)
    ensures SplitToTokens([c] + rest) == SplitToTokens(rest)
  {
    assert ([c] + rest)[1..] == rest;
  }
}

/** The worked tokenisation example, proved step by step. */
module TokenizerExamples {
  import opened Tokenizer
  import opened Results
  import opened Text

  /** The worked example: punctuation dropped, text lowercased. */
  lemma TokenizeExample()
    ensures TokenizeLine("The Quick, Fox!", Config(2, None, true)) == ["the", "quick", "fox"]
  {
    NormalizeExample();
    SplitExample();
    FilterExample();
  }

  /** The normalised text, written as the words and the spaces between them. */
  function ExampleNormalized(): string
  {
    "the" + ([' '] + ("quick" + ([' '] + ([' '] + ("fox" + [' '])))))
  }

  lemma NormalizeExample()
    ensures NormalizeText("The Quick, Fox!", true) == ExampleNormalized()
  {
    var text := "The Quick, Fox!";
    var n := NormalizeText(text, true);
    var e := ExampleNormalized();
    assert |e| == 15;
    forall i | 0 <= i < |text| ensures n[i] == e[i] {
      assert n[i] == NormalizeChar(text[i], true);
    }
  }

  lemma FilterExample()
    ensures Filtered(["the", "quick", "fox"], {}, 2) == ["the", "quick", "fox"]
  {
    FilteredIdentity(["the", "quick", "fox"], {}, 2);
  }

  /** One word followed by a space. */
  lemma SplitOneWord(c: string)
    requires c != [] && NoSpace(c)
    ensures SplitToTokens(c + [' ']) == [c]
  {
    SplitWord(c, [' ']);
    assert [' '][1..] == [];
  }

  /** Two words, two spaces between them and one after. */
  lemma SplitTwoWords(b: string, c: string)
    requires b != [] && NoSpace(b) && c != [] && NoSpace(c)
    ensures SplitToTokens(b + ([' '] + ([' '] + (c + [' '])))) == [b, c]
  {
    var s := c + [' '];
    SplitOneWord(c);
    SplitSpace(' ', s);
    SplitSpace(' ', [' '] + s);
    SplitWord(b, [' '] + ([' '] + s));
  }

  /** Three words, the layout of the example's normalised text. */
  lemma SplitThreeWords(a: string, b: string, c: string)
    requires a != [] && NoSpace(a) && b != [] && NoSpace(b) && c != [] && NoSpace(c)
    ensures SplitToTokens(a + ([' '] + (b + ([' '] + ([' '] + (c + [' '])))))) == [a, b, c]
  {
    var s := b + ([' '] + ([' '] + (c + [' '])));
    SplitTwoWords(b, c);
    SplitSpace(' ', s);
    SplitWord(a, [' '] + s);
  }

  lemma SplitExample()
    ensures SplitToTokens(ExampleNormalized()) == ["the", "quick", "fox"]
  {
    SplitThreeWords("the", "quick", "fox");
  }
}
