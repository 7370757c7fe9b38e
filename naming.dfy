/** The name of the generated `SystemParam` bundle: the function name with `Params`
    appended, turned into CamelCase one character at a time. */
module Naming {

  /** ASCII upper-casing of one character; every other character maps to itself. */
  function Upper(c: char): (r: char)
    ensures r == '_' <==> c == '_'
    ensures 'a' <= c <= 'z' ==> 'A' <= r <= 'Z'
  {
    if 'a' <= c <= 'z' then (c as int - 32) as char else c
  }

  /** Whether the character at index `i` starts a word: it is the first one or it follows `_`. */
  predicate StartsWord(s: string, i: nat)
    requires i < |s|
  {
    i == 0 || s[i - 1] == '_'
  }

  /** What the character at index `i` becomes: upper-cased when it starts a word,
      dropped when it is an `_` that does not, kept otherwise. */
  function Piece(s: string, i: nat): (r: string)
    requires i < |s|
    ensures |r| <= 1
    ensures '_' in r <==> s[i] == '_' && StartsWord(s, i)
  {
    if StartsWord(s, i) then [Upper(s[i])]
    else if s[i] == '_' then []
    else [s[i]]
  }

  /** The pieces of the first `n` characters, collected in order. */
  function CamelPrefix(s: string, n: nat): (r: string)
    requires n <= |s|
    ensures |r| <= n
  {
    if n == 0 then [] else CamelPrefix(s, n - 1) + Piece(s, n - 1)
  }

  function CamelCase(s: string): (r: string)
    ensures |r| <= |s|
  {
    CamelPrefix(s, |s|)
  }

  /** The struct name the macro derives from the function name. */
  function ParamsStructName(fnName: string): string
  {
    CamelCase(fnName + "Params")
  }

  /** A left-to-right reference reading of the same rule: `atStart` says whether the
      previous character was `_` (or there was none). */
  function Camel(s: string, atStart: bool): string
  {
    if |s| == 0 then []
    else
      (if atStart then [Upper(s[0])] else if s[0] == '_' then [] else [s[0]])
      + Camel(s[1..], s[0] == '_')
  }

  lemma {:induction false} CamelPrefixThenRest(s: string, n: nat)
    requires n <= |s|
    ensures CamelPrefix(s, n) + Camel(s[n..], n == 0 || s[n - 1] == '_') == Camel(s, true)
    decreases n
  {
    if n > 0 {
      CamelPrefixThenRest(s, n - 1);
      var rest := s[n - 1..];
      assert rest[1..] == s[n..];
      assert Camel(rest, StartsWord(s, n - 1)) == Piece(s, n - 1) + Camel(s[n..], s[n - 1] == '_');
    }
  }

  /** The index-wise rule and the left-to-right reading agree on every string. */
  lemma CamelCaseIsStreaming(s: string)
    ensures CamelCase(s) == Camel(s, true)
  {
    CamelPrefixThenRest(s, |s|);
    assert s[|s|..] == [];
  }

  lemma {:induction false} CamelPrefixUnderscore(s: string, n: nat)
    requires n <= |s|
    ensures '_' in CamelPrefix(s, n) <==> exists i :: 0 <= i < n && s[i] == '_' && StartsWord(s, i)
    decreases n
  {
    if n > 0 {
      CamelPrefixUnderscore(s, n - 1);
      if s[n - 1] == '_' && StartsWord(s, n - 1) {
        assert '_' in Piece(s, n - 1);
      }
    }
  }

  /** An `_` survives exactly when it is the first character or follows another `_`;
      every other `_` is removed. */
  lemma UnderscoreSurvives(s: string)
    ensures '_' in CamelCase(s) <==> exists i :: 0 <= i < |s| && s[i] == '_' && StartsWord(s, i)
  {
    CamelPrefixUnderscore(s, |s|);
  }

  /** The derived struct name always ends in `Params`, whatever the function name. */
  lemma ParamsSuffix(fnName: string)
    ensures |ParamsStructName(fnName)| >= 6
    ensures ParamsStructName(fnName)[|ParamsStructName(fnName)| - 6..] == "Params"
  {
    var s := fnName + "Params";
    var k := |fnName|;
    CamelPrefixThenRest(s, k);
    CamelCaseIsStreaming(s);
    assert s[k..] == "Params";
    ParamsKept(k == 0 || s[k - 1] == '_');
  }

  lemma ParamsKept(atStart: bool)
    ensures Camel("Params", atStart) == "Params"
  {
    assert "Params"[1..] == "arams";
    assert Camel("arams", false) == "arams" by {
      assert "arams"[1..] == "rams";
      assert "rams"[1..] == "ams";
      assert "ams"[1..] == "ms";
      assert "ms"[1..] == "s";
      assert "s"[1..] == "";
    }
  }

  // ----- the word-wise reading -----

  /** Words joined by single underscores. */
  function Join(words: seq<string>): string
  {
    if |words| == 0 then []
    else if |words| == 1 then words[0]
    else words[0] + "_" + Join(words[1..])
  }

  predicate PlainWord(w: string)
  {
    |w| > 0 && '_' !in w
  }

  function Capitalize(w: string): (r: string)
    requires |w| > 0
    ensures |r| == |w| && r[0] == Upper(w[0]) && r[1..] == w[1..]
  {
    [Upper(w[0])] + w[1..]
  }

  function CapitalizeAll(words: seq<string>): string
    requires forall i :: 0 <= i < |words| ==> PlainWord(words[i])
  {
    if |words| == 0 then []
    else
      assert PlainWord(words[0]);
      Capitalize(words[0]) + CapitalizeAll(words[1..])
  }

  lemma {:induction false} CamelInsideWord(x: string)
    requires '_' !in x
    ensures Camel(x, false) == x
    decreases |x|
  {
    if |x| > 0 {
      CamelInsideWord(x[1..]);
      assert x[0] != '_';
    }
  }

  lemma {:induction false} CamelThroughWordEnd(x: string, rest: string)
    requires '_' !in x
    ensures Camel(x + "_" + rest, false) == x + Camel(rest, true)
    decreases |x|
  {
    var s := x + "_" + rest;
    if |x| == 0 {
      assert s[0] == '_' && s[1..] == rest;
    } else {
      assert x[0] != '_';
      assert s[1..] == x[1..] + "_" + rest;
      CamelThroughWordEnd(x[1..], rest);
    }
  }

  lemma CamelWordThenRest(w: string, rest: string)
    requires PlainWord(w)
    ensures Camel(w + "_" + rest, true) == Capitalize(w) + Camel(rest, true)
  {
    var s := w + "_" + rest;
    assert w[0] != '_';
    assert s[1..] == w[1..] + "_" + rest;
    CamelThroughWordEnd(w[1..], rest);
  }

  lemma CamelLastWord(w: string)
    requires PlainWord(w)
    ensures Camel(w, true) == Capitalize(w)
  {
    assert w[0] != '_';
    CamelInsideWord(w[1..]);
  }

  lemma {:induction false} CamelJoin(words: seq<string>, tail: string)
    requires |words| > 0
    requires forall i :: 0 <= i < |words| ==> PlainWord(words[i])
    requires '_' !in tail
    ensures Camel(Join(words) + tail, true) == CapitalizeAll(words) + tail
    decreases |words|
  {
    if |words| == 1 {
      assert PlainWord(words[0] + tail);
      CamelLastWord(words[0] + tail);
      assert CapitalizeAll(words) == Capitalize(words[0]) + CapitalizeAll(words[1..]);
    } else {
      var rest := Join(words[1..]) + tail;
      assert Join(words) + tail == words[0] + "_" + rest;
      CamelWordThenRest(words[0], rest);
      CamelJoin(words[1..], tail);
    }
  }

  lemma CamelCaseOfWords(words: seq<string>, tail: string)
    requires |words| > 0
    requires forall i :: 0 <= i < |words| ==> PlainWord(words[i])
    requires '_' !in tail
    ensures CamelCase(Join(words) + tail) == CapitalizeAll(words) + tail
  {
    CamelCaseIsStreaming(Join(words) + tail);
    CamelJoin(words, tail);
  }

  lemma ParamsHasNoUnderscore()
    ensures '_' !in "Params"
  {
    assert "Params" == ['P', 'a', 'r', 'a', 'm', 's'];
  }

  /** For a snake_case name made of non-empty words without underscores, the struct name
      is every word capitalized, run together, followed by `Params`. */
  lemma ParamsStructNameOfWords(words: seq<string>)
    requires |words| > 0
    requires forall i :: 0 <= i < |words| ==> PlainWord(words[i])
    ensures ParamsStructName(Join(words)) == CapitalizeAll(words) + "Params"
  {
    ParamsHasNoUnderscore();
    CamelCaseOfWords(words, "Params");
  }

  /** The name used by the crate's own example system. */
  lemma BoxAnimationExample()
    ensures ParamsStructName("box_animation") == "BoxAnimationParams"
  {
    var words := ["box", "animation"];
    assert Join(words[1..]) == "animation";
    assert Join(words) == "box_animation";
    ParamsStructNameOfWords(words);
    assert CapitalizeAll(words[1..]) == Capitalize("animation") + CapitalizeAll([]);
  }
}
