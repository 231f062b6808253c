/**
  Claim extraction (`extract_claims` in evaluation/scorer.py).

  An answer is split with the regular expression `(?<=[.?!])\s+`: a break is a run of
  whitespace that directly follows `.`, `?` or `!`. Each fragment is stripped of surrounding
  whitespace and the fragments that become empty are dropped.
*/
module Claims {
  import opened Wrappers

  /**
    Python's whitespace: the characters for which `str.isspace()` holds, which are also the ones
    `str.strip()` removes and `\s` matches in a `str` pattern.
  */
  const Whitespace: seq<char> := [
    '\U{9}', '\U{A}', '\U{B}', '\U{C}', '\U{D}', '\U{1C}', '\U{1D}', '\U{1E}', '\U{1F}', ' ',
    '\U{85}', '\U{A0}', '\U{1680}',
    '\U{2000}', '\U{2001}', '\U{2002}', '\U{2003}', '\U{2004}', '\U{2005}', '\U{2006}',
    '\U{2007}', '\U{2008}', '\U{2009}', '\U{200A}',
    '\U{2028}', '\U{2029}', '\U{202F}', '\U{205F}', '\U{3000}'
  ]

  /**
    `c` is among the first `n` characters of `Whitespace`. Written as a recursion rather than
    as `c in Whitespace[..n]` so that the proofs about splitting, which never need to know
    which characters are whitespace, do not unfold the whole table.
  */
  predicate ListedBelow(c: char, n: nat)
    requires n <= |Whitespace|
    decreases n
  {
    n > 0 && (Whitespace[n - 1] == c || ListedBelow(c, n - 1))
  }

  predicate IsSpace(c: char) {
    ListedBelow(c, |Whitespace|)
  }

  lemma {:induction false} ListedBelowIsMembership(c: char, n: nat)
    requires n <= |Whitespace|
    ensures ListedBelow(c, n) <==> c in Whitespace[..n]
  {
    if n > 0 {
      ListedBelowIsMembership(c, n - 1);
      assert Whitespace[..n] == Whitespace[..n - 1] + [Whitespace[n - 1]];
    }
  }

  /** `IsSpace` is membership in the table. */
  lemma IsSpaceIsMembership(c: char)
    ensures IsSpace(c) <==> c in Whitespace
  {
    ListedBelowIsMembership(c, |Whitespace|);
    assert Whitespace[..|Whitespace|] == Whitespace;
  }

  /** None of `.`, `?`, `!` is whitespace. */
  lemma TerminalIsNotSpace(c: char)
    requires IsTerminal(c)
    ensures !IsSpace(c)
  {
    IsSpaceIsMembership(c);
  }

  /** The sentence-ending characters of the look-behind `[.?!]`. */
  predicate IsTerminal(c: char) {
    c == '.' || c == '?' || c == '!'
  }

  /** Nothing but whitespace (the empty string included): `not s.strip()`. */
  predicate Blank(s: string) {
    forall i | 0 <= i < |s| :: IsSpace(s[i])
  }

  /** The split pattern can start a match at index `i`: a terminal just before, whitespace at `i`. */
  predicate BreakAt(s: string, i: int) {
    0 < i < |s| && IsTerminal(s[i - 1]) && IsSpace(s[i])
  }

  /** Some terminal character of `s` is directly followed by whitespace. */
  predicate HasBreak(s: string) {
    exists i | 0 < i < |s| :: BreakAt(s, i)
  }

  predicate EndsInTerminal(s: string) {
    s != [] && IsTerminal(s[|s| - 1])
  }

  /** The characters of `s` that are not whitespace, in order. */
  function NonSpace(s: string): string {
    if s == [] then []
    else (if IsSpace(s[0]) then [] else [s[0]]) + NonSpace(s[1..])
  }

  /** A string has no non-whitespace characters exactly when it is blank. */
  lemma {:induction false} NonSpaceEmptyIffBlank(s: string)
    ensures NonSpace(s) == [] <==> Blank(s)
  {
    if s != [] {
      NonSpaceEmptyIffBlank(s[1..]);
      assert Blank(s) <==> IsSpace(s[0]) && Blank(s[1..]);
    }
  }

  /** `"".join(ss)`. */
  function Flatten(ss: seq<string>): string {
    if ss == [] then [] else ss[0] + Flatten(ss[1..])
  }

  lemma {:induction false} NonSpaceAppend(a: string, b: string)
    ensures NonSpace(a + b) == NonSpace(a) + NonSpace(b)
    decreases |a|
  {
    if a == [] {
      assert a + b == b;
    } else {
      assert (a + b)[0] == a[0];
      assert (a + b)[1..] == a[1..] + b;
      NonSpaceAppend(a[1..], b);
    }
  }

  // ---------------------------------------------------------------- str.strip()

  /** `s.lstrip()`: a suffix of `s` whose removed prefix is whitespace. */
  function StripStart(s: string): (r: string)
    ensures |r| <= |s| && r == s[|s| - |r|..]
    ensures Blank(s[..|s| - |r|])
    ensures r == [] || !IsSpace(r[0])
    decreases |s|
  {
    if s != [] && IsSpace(s[0]) then StripStart(s[1..]) else s
  }

  /** `s.rstrip()`: a prefix of `s` whose removed suffix is whitespace. */
  function StripEnd(s: string): (r: string)
    ensures |r| <= |s| && r == s[..|r|]
    ensures Blank(s[|r|..])
    ensures r == [] || !IsSpace(r[|r| - 1])
    decreases |s|
  {
    if s != [] && IsSpace(s[|s| - 1]) then StripEnd(s[..|s| - 1]) else s
  }

  /** `s.strip()`. */
  function Strip(s: string): (r: string)
    ensures r == [] <==> Blank(s)
    ensures r != [] ==> !IsSpace(r[0]) && !IsSpace(r[|r| - 1])
  {
    var t := StripStart(s);
    assert Blank(s) ==> Blank(t);
    StripEnd(t)
  }

  lemma DropBlankPrefix(a: string, b: string)
    requires Blank(a)
    ensures NonSpace(a + b) == NonSpace(b)
  {
    NonSpaceAppend(a, b);
    NonSpaceEmptyIffBlank(a);
  }

  lemma DropBlankSuffix(a: string, b: string)
    requires Blank(b)
    ensures NonSpace(a + b) == NonSpace(a)
  {
    NonSpaceAppend(a, b);
    NonSpaceEmptyIffBlank(b);
  }

  lemma StripStartKeepsNonSpace(s: string)
    ensures NonSpace(StripStart(s)) == NonSpace(s)
  {
    var t := StripStart(s);
    var lead := s[..|s| - |t|];
    assert s == lead + t;
    DropBlankPrefix(lead, t);
  }

  lemma StripEndKeepsNonSpace(s: string)
    ensures NonSpace(StripEnd(s)) == NonSpace(s)
  {
    var r := StripEnd(s);
    var trail := s[|r|..];
    assert s == r + trail;
    DropBlankSuffix(r, trail);
  }

  /** Stripping removes whitespace only. */
  lemma StripKeepsNonSpace(s: string)
    ensures NonSpace(Strip(s)) == NonSpace(s)
  {
    StripStartKeepsNonSpace(s);
    StripEndKeepsNonSpace(StripStart(s));
  }

  /** Stripping cuts a slice out of `s`, so it cannot create a break. */
  lemma StripKeepsNoBreak(s: string)
    requires !HasBreak(s)
    ensures !HasBreak(Strip(s))
  {
    var t := StripStart(s);
    var r := StripEnd(t);
    var a := |s| - |t|;
    assert r == s[a..a + |r|];
    forall i ensures !BreakAt(r, i) {
      if BreakAt(r, i) {
        assert BreakAt(s, a + i);
      }
    }
  }

  /** A string that ends in a non-whitespace character keeps that character as its last. */
  lemma StripKeepsLast(s: string)
    requires s != [] && !IsSpace(s[|s| - 1])
    ensures Strip(s) != [] && Strip(s)[|Strip(s)| - 1] == s[|s| - 1]
  {
    var t := StripStart(s);
    StripStartKeepsLast(s);
    StripEndOfUnpadded(t);
  }

  lemma StripStartKeepsLast(s: string)
    requires s != [] && !IsSpace(s[|s| - 1])
    ensures StripStart(s) != [] && StripStart(s)[|StripStart(s)| - 1] == s[|s| - 1]
  {
    var t := StripStart(s);
    var k := |s| - |t|;
    assert !Blank(s[..|s|]) by {
      assert s[..|s|][|s| - 1] == s[|s| - 1];
    }
    assert k < |s|;
    assert t == s[k..];
  }

  lemma StripEndOfUnpadded(t: string)
    requires t != [] && !IsSpace(t[|t| - 1])
    ensures StripEnd(t) == t
  {
  }

  // ---------------------------------------------------------------- the regex split

  /** The first index at or after `from` where the split pattern matches, or `|s|` if none. */
  function FirstBreak(s: string, from: nat): (k: nat)
    requires from <= |s|
    ensures from <= k <= |s|
    ensures k < |s| ==> BreakAt(s, k)
    ensures forall i | from <= i < k :: !BreakAt(s, i)
    decreases |s| - from
  {
    if from == |s| || BreakAt(s, from) then from else FirstBreak(s, from + 1)
  }

  /** The end of the whitespace run starting at `from`: `\s+` is greedy. */
  function SpanEnd(s: string, from: nat): (j: nat)
    requires from <= |s|
    ensures from <= j <= |s|
    ensures forall i | from <= i < j :: IsSpace(s[i])
    ensures j < |s| ==> !IsSpace(s[j])
    decreases |s| - from
  {
    if from < |s| && IsSpace(s[from]) then SpanEnd(s, from + 1) else from
  }

  /** `_SENT_SPLIT_RE.split(s)`: the text between the matches, left to right. */
  function Fragments(s: string): (fs: seq<string>)
    ensures fs != []
    decreases |s|
  {
    var k := FirstBreak(s, 0);
    if k == |s| then [s]
    else [s[..k]] + Fragments(s[SpanEnd(s, k)..])
  }

  /** The matches themselves: the whitespace runs that the split removes. */
  function Separators(s: string): (gs: seq<string>)
    ensures forall i | 0 <= i < |gs| :: gs[i] != [] && Blank(gs[i])
    decreases |s|
  {
    var k := FirstBreak(s, 0);
    if k == |s| then []
    else
      var j := SpanEnd(s, k);
      [s[k..j]] + Separators(s[j..])
  }

  /** `fs[0] + gs[0] + fs[1] + ... + gs[n-1] + fs[n]`. */
  function Interleave(fs: seq<string>, gs: seq<string>): string
    requires |fs| == |gs| + 1
    decreases |gs|
  {
    if gs == [] then fs[0] else fs[0] + gs[0] + Interleave(fs[1..], gs[1..])
  }

  /** Putting the separators back between the fragments gives the text back. */
  lemma {:induction false} SplitRebuildsText(s: string)
    ensures |Fragments(s)| == |Separators(s)| + 1
    ensures Interleave(Fragments(s), Separators(s)) == s
    decreases |s|
  {
    var k := FirstBreak(s, 0);
    if k < |s| {
      var j := SpanEnd(s, k);
      var rest := s[j..];
      SplitRebuildsText(rest);
      SplitStep(s);
      InterleaveCons(s[..k], s[k..j], Fragments(rest), Separators(rest));
      assert s[..k] + s[k..j] + rest == s;
    }
  }

  /** One step of the split: the text before the first match, the match, and the split of the rest. */
  lemma SplitStep(s: string)
    requires FirstBreak(s, 0) < |s|
    ensures var k := FirstBreak(s, 0);
      var j := SpanEnd(s, k);
      && Fragments(s) == [s[..k]] + Fragments(s[j..])
      && Separators(s) == [s[k..j]] + Separators(s[j..])
  {
  }

  lemma InterleaveCons(f: string, g: string, fs: seq<string>, gs: seq<string>)
    requires |fs| == |gs| + 1
    ensures Interleave([f] + fs, [g] + gs) == f + g + Interleave(fs, gs)
  {
    assert ([f] + fs)[1..] == fs && ([g] + gs)[1..] == gs;
  }

  /**
    Where the breaks fall: no fragment contains a break, every fragment but the last ends in a
    terminal, and every fragment after the first starts with a non-whitespace character (or is
    the empty fragment after a trailing break).
  */
  lemma {:induction false} FragmentsShape(s: string)
    ensures forall i | 0 <= i < |Fragments(s)| :: !HasBreak(Fragments(s)[i])
    ensures forall i | 0 <= i < |Fragments(s)| - 1 :: EndsInTerminal(Fragments(s)[i])
    ensures forall i | 0 < i < |Fragments(s)| :: Fragments(s)[i] == [] || !IsSpace(Fragments(s)[i][0])
    ensures Fragments(s)[0] == [] || Fragments(s)[0][0] == s[0]
    decreases |s|
  {
    var k := FirstBreak(s, 0);
    var fs := Fragments(s);
    if k == |s| {
      assert fs == [s];
      forall i ensures !BreakAt(s, i) {
        if 0 <= i < k { assert !BreakAt(s, i); }
      }
    } else {
      var j := SpanEnd(s, k);
      var rest := s[j..];
      FragmentsShape(rest);
      var head := s[..k];
      assert fs == [head] + Fragments(rest);
      forall i ensures !BreakAt(head, i) {
        if BreakAt(head, i) {
          assert BreakAt(s, i);
        }
      }
      assert rest == [] || !IsSpace(rest[0]);
      forall i | 0 < i < |fs| ensures fs[i] == [] || !IsSpace(fs[i][0]) {
        assert fs[i] == Fragments(rest)[i - 1];
        if i > 1 {
        } else if fs[i] != [] {
          assert fs[i][0] == rest[0];
        }
      }
      forall i | 0 <= i < |fs| - 1 ensures EndsInTerminal(fs[i]) {
        if i > 0 {
          assert fs[i] == Fragments(rest)[i - 1];
        }
      }
    }
  }

  /** The split removes whitespace only. */
  lemma {:induction false} FragmentsKeepNonSpace(s: string)
    ensures NonSpace(Flatten(Fragments(s))) == NonSpace(s)
    decreases |s|
  {
    var k := FirstBreak(s, 0);
    var fs := Fragments(s);
    if k == |s| {
      assert fs[1..] == [];
      assert Flatten(fs) == s;
    } else {
      var j := SpanEnd(s, k);
      var head, gap, rest := s[..k], s[k..j], s[j..];
      var tail := Flatten(Fragments(rest));
      calc {
        NonSpace(Flatten(fs));
      == { assert fs[0] == head && fs[1..] == Fragments(rest); }
        NonSpace(head + tail);
      == { NonSpaceAppend(head, tail); }
        NonSpace(head) + NonSpace(tail);
      == { FragmentsKeepNonSpace(rest); }
        NonSpace(head) + NonSpace(rest);
      == { assert Blank(gap); DropBlankPrefix(gap, rest); }
        NonSpace(head) + NonSpace(gap + rest);
      == { NonSpaceAppend(head, gap + rest); }
        NonSpace(head + (gap + rest));
      == { assert head + (gap + rest) == s; }
        NonSpace(s);
      }
    }
  }

  // ---------------------------------------------------------------- strip and filter

  /** `[f.strip() for f in fs if f.strip()]`. */
  function NonBlankStripped(fs: seq<string>): (cs: seq<string>)
    ensures |cs| <= |fs|
    ensures forall i | 0 <= i < |cs| :: cs[i] != [] && !IsSpace(cs[i][0]) && !IsSpace(cs[i][|cs[i]| - 1])
  {
    if fs == [] then []
    else
      var c := Strip(fs[0]);
      (if c == [] then [] else [c]) + NonBlankStripped(fs[1..])
  }

  lemma FlattenCons(c: string, rest: seq<string>)
    ensures Flatten([c] + rest) == c + Flatten(rest)
  {
    assert ([c] + rest)[1..] == rest;
  }

  lemma FlattenNonBlankStripped(fs: seq<string>)
    requires fs != []
    ensures Flatten(NonBlankStripped(fs)) == Strip(fs[0]) + Flatten(NonBlankStripped(fs[1..]))
  {
    var c := Strip(fs[0]);
    var rest := NonBlankStripped(fs[1..]);
    var cs := NonBlankStripped(fs);
    if c == [] {
      assert cs == [] + rest == rest;
    } else {
      assert cs == [c] + rest;
      FlattenCons(c, rest);
    }
  }

  lemma {:induction false} NonBlankStrippedKeepsNonSpace(fs: seq<string>)
    ensures NonSpace(Flatten(NonBlankStripped(fs))) == NonSpace(Flatten(fs))
  {
    if fs != [] {
      var f, more := fs[0], fs[1..];
      var c := Strip(f);
      var rest := NonBlankStripped(more);
      var cs := NonBlankStripped(fs);
      FlattenNonBlankStripped(fs);
      calc {
        NonSpace(Flatten(cs));
      == { NonSpaceAppend(c, Flatten(rest)); }
        NonSpace(c) + NonSpace(Flatten(rest));
      == { NonBlankStrippedKeepsNonSpace(more); }
        NonSpace(c) + NonSpace(Flatten(more));
      == { StripKeepsNonSpace(f); }
        NonSpace(f) + NonSpace(Flatten(more));
      == { NonSpaceAppend(f, Flatten(more)); }
        NonSpace(f + Flatten(more));
      }
    }
  }

  lemma {:induction false} NonBlankStrippedNoBreak(fs: seq<string>)
    requires forall i | 0 <= i < |fs| :: !HasBreak(fs[i])
    ensures forall i | 0 <= i < |NonBlankStripped(fs)| :: !HasBreak(NonBlankStripped(fs)[i])
  {
    if fs != [] {
      var c := Strip(fs[0]);
      var rest := NonBlankStripped(fs[1..]);
      var cs := NonBlankStripped(fs);
      StripKeepsNoBreak(fs[0]);
      NonBlankStrippedNoBreak(fs[1..]);
      if c == [] {
        assert cs == rest;
      } else {
        assert cs == [c] + rest;
        forall i | 0 <= i < |cs| ensures !HasBreak(cs[i]) {
          if i > 0 {
            assert cs[i] == rest[i - 1];
          }
        }
      }
    }
  }

  lemma {:induction false} NonBlankStrippedTerminal(fs: seq<string>)
    requires forall i | 0 <= i < |fs| - 1 :: EndsInTerminal(fs[i])
    ensures forall i | 0 <= i < |NonBlankStripped(fs)| - 1 :: EndsInTerminal(NonBlankStripped(fs)[i])
  {
    if |fs| > 1 {
      var c := Strip(fs[0]);
      assert EndsInTerminal(fs[0]);
      TerminalIsNotSpace(fs[0][|fs[0]| - 1]);
      StripKeepsLast(fs[0]);
      assert c != [] && EndsInTerminal(c);
      NonBlankStrippedTerminal(fs[1..]);
      var cs := NonBlankStripped(fs);
      assert cs == [c] + NonBlankStripped(fs[1..]);
    }
  }

  // ---------------------------------------------------------------- extract_claims

  /** `extract_claims(text)`: `None` and `""` give no claims; otherwise split, strip, drop blanks. */
  function ExtractClaims(text: Option<string>): (claims: seq<string>)
    ensures text.None? || text.value == [] ==> claims == []
    ensures forall i | 0 <= i < |claims| ::
      claims[i] != [] && !IsSpace(claims[i][0]) && !IsSpace(claims[i][|claims[i]| - 1])
  {
    if text.None? || text.value == [] then [] else NonBlankStripped(Fragments(text.value))
  }

  /** The claims hold exactly the text's non-whitespace characters, in order. */
  lemma ClaimsKeepNonSpace(text: string)
    ensures NonSpace(Flatten(ExtractClaims(Some(text)))) == NonSpace(text)
  {
    if text != [] {
      FragmentsKeepNonSpace(text);
      NonBlankStrippedKeepsNonSpace(Fragments(text));
    }
  }

  /** An answer yields no claims exactly when it is blank. */
  lemma NoClaimsIffBlank(text: string)
    ensures ExtractClaims(Some(text)) == [] <==> Blank(text)
  {
    var claims := ExtractClaims(Some(text));
    ClaimsKeepNonSpace(text);
    NonSpaceEmptyIffBlank(text);
    if claims != [] {
      assert Flatten(claims) == claims[0] + Flatten(claims[1..]);
      NonSpaceAppend(claims[0], Flatten(claims[1..]));
      assert !Blank(claims[0]);
      NonSpaceEmptyIffBlank(claims[0]);
    }
  }

  /** No claim contains a terminal followed by whitespace. */
  lemma ClaimsHaveNoBreak(text: string)
    ensures var claims := ExtractClaims(Some(text));
      forall i | 0 <= i < |claims| :: !HasBreak(claims[i])
  {
    if text != [] {
      FragmentsShape(text);
      NonBlankStrippedNoBreak(Fragments(text));
    }
  }

  /** Every claim but the last ends in `.`, `?` or `!`. */
  lemma ClaimsEndInTerminal(text: string)
    ensures var claims := ExtractClaims(Some(text));
      forall i | 0 <= i < |claims| - 1 :: EndsInTerminal(claims[i])
  {
    if text != [] {
      FragmentsShape(text);
      NonBlankStrippedTerminal(Fragments(text));
    }
  }

  /** Text with no break is one claim, the stripped text, unless it is blank. */
  lemma UnbrokenTextIsOneClaim(text: string)
    requires !HasBreak(text)
    ensures ExtractClaims(Some(text)) == if Blank(text) then [] else [Strip(text)]
  {
    if text != [] {
      assert FirstBreak(text, 0) == |text|;
      var fs := Fragments(text);
      assert fs == [text];
      assert fs[1..] == [];
    }
  }

  // ---------------------------------------------------------------- sentences

  lemma SpanEndAt(s: string, from: nat, j: nat)
    requires from <= j <= |s|
    requires forall i | from <= i < j :: IsSpace(s[i])
    requires j < |s| ==> !IsSpace(s[j])
    ensures SpanEnd(s, from) == j
  {
  }

  /** A sentence, a whitespace run, then text that starts with a non-whitespace character. */
  lemma FragmentsAfterSentence(a: string, gap: string, b: string)
    requires EndsInTerminal(a) && !HasBreak(a)
    requires gap != [] && Blank(gap)
    requires b == [] || !IsSpace(b[0])
    ensures Fragments(a + gap + b) == [a] + Fragments(b)
  {
    var s := a + gap + b;
    forall i | 0 <= i < |a| ensures !BreakAt(s, i) {
      if BreakAt(s, i) {
        assert BreakAt(a, i);
      }
    }
    assert BreakAt(s, |a|);
    assert FirstBreak(s, 0) == |a|;
    SpanEndAt(s, |a|, |a| + |gap|);
    assert s[..|a|] == a;
    assert s[|a| + |gap|..] == b;
  }

  lemma UnbrokenIsOneFragment(s: string)
    requires !HasBreak(s)
    ensures Fragments(s) == [s]
  {
    assert FirstBreak(s, 0) == |s|;
  }

  /** A terminal can only start a break if it is followed by something. */
  lemma OnlyLastTerminal(s: string)
    requires forall i | 0 <= i < |s| - 1 :: !IsTerminal(s[i])
    ensures !HasBreak(s)
  {
  }

  lemma StripUnpadded(s: string)
    requires s != [] && !IsSpace(s[0]) && !IsSpace(s[|s| - 1])
    ensures Strip(s) == s
  {
    assert StripStart(s) == s;
  }

  /** Two sentences separated by whitespace are two claims, each kept whole. */
  lemma TwoSentencesTwoClaims(a: string, gap: string, b: string)
    requires EndsInTerminal(a) && !HasBreak(a) && !IsSpace(a[0])
    requires EndsInTerminal(b) && !HasBreak(b) && !IsSpace(b[0])
    requires gap != [] && Blank(gap)
    ensures ExtractClaims(Some(a + gap + b)) == [a, b]
  {
    TerminalIsNotSpace(a[|a| - 1]);
    TerminalIsNotSpace(b[|b| - 1]);
    FragmentsAfterSentence(a, gap, b);
    UnbrokenIsOneFragment(b);
    StripUnpadded(a);
    StripUnpadded(b);
    var fs := Fragments(a + gap + b);
    assert fs == [a, b];
    assert NonBlankStripped(fs[1..]) == [b] by {
      assert fs[1..] == [b];
      assert NonBlankStripped([b])[1..] == [];
    }
  }
}
