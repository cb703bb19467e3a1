/**
 * The text normaliser applied to the free-text columns (`normalize_text`):
 * canonical decomposition, removal of non-spacing marks, lowercasing,
 * trimming, and collapsing of whitespace runs to a single space.
 *
 * The Unicode tables are left abstract: a `Unicode` value supplies NFD,
 * the `Mn` category test, the whitespace test (the one shared by
 * `str.strip()` and the regex class `\s`) and the per-character lowercase
 * mapping.  The properties below say which facts of those tables they use.
 */
module Text {
  import opened Wrappers

  datatype Unicode = Unicode(
    nfd: string -> string,
    isMark: char -> bool,
    isSpace: char -> bool,
    lower: char -> string)

  /** The plain space is whitespace, is not a mark and lowercases to itself. */
  ghost predicate SpaceIsPlain(u: Unicode) {
    u.isSpace(' ') && !u.isMark(' ') && u.lower(' ') == " "
  }

  /** Lowercasing never emits a non-spacing mark (false in full Unicode for U+0130). */
  ghost predicate LowerAddsNoMark(u: Unicode) {
    forall c: char, k: int :: 0 <= k < |u.lower(c)| ==> !u.isMark(u.lower(c)[k])
  }

  /** Every character lowercasing produces is its own lowercase. */
  ghost predicate LowerIsIdempotent(u: Unicode) {
    forall c: char, k: int :: 0 <= k < |u.lower(c)| ==> u.lower(u.lower(c)[k]) == [u.lower(c)[k]]
  }

  /** No whitespace at either end. */
  ghost predicate Trimmed(u: Unicode, s: string) {
    s == [] || (!u.isSpace(s[0]) && !u.isSpace(s[|s| - 1]))
  }

  /** No two adjacent whitespace characters. */
  ghost predicate NoDoubleSpace(u: Unicode, s: string) {
    forall k :: 0 <= k < |s| - 1 ==> !(u.isSpace(s[k]) && u.isSpace(s[k + 1]))
  }

  /** The non-whitespace characters of `s`, in order. */
  function NonSpace(u: Unicode, s: string): string {
    if s == [] then []
    else if u.isSpace(s[0]) then NonSpace(u, s[1..])
    else [s[0]] + NonSpace(u, s[1..])
  }

  /** Keeps the characters whose category is not `Mn`. */
  function DropMarks(u: Unicode, s: string): (r: string)
    ensures |r| <= |s|
    ensures forall k :: 0 <= k < |r| ==> !u.isMark(r[k]) && r[k] in s
    ensures forall k :: 0 <= k < |s| && !u.isMark(s[k]) ==> s[k] in r
  {
    if s == [] then []
    else
      var rest := DropMarks(u, s[1..]);
      assert forall k :: 1 <= k < |s| ==> s[k] == s[1..][k - 1];
      if u.isMark(s[0]) then rest else [s[0]] + rest
  }

  /** Filtering a concatenation filters each part: the kept characters keep their order and multiplicity. */
  lemma {:induction false} DropMarksAppend(u: Unicode, a: string, b: string)
    ensures DropMarks(u, a + b) == DropMarks(u, a) + DropMarks(u, b)
  {
    if a == [] {
      assert a + b == b;
    } else {
      assert (a + b)[1..] == a[1..] + b;
      DropMarksAppend(u, a[1..], b);
    }
  }

  /** One character is kept exactly when it is not a mark. */
  lemma DropMarksOne(u: Unicode, c: char)
    ensures DropMarks(u, [c]) == if u.isMark(c) then [] else [c]
  {
    assert [c][1..] == [];
  }

  /** `str.lower()`, character by character. */
  function Lower(u: Unicode, s: string): string {
    if s == [] then [] else u.lower(s[0]) + Lower(u, s[1..])
  }

  /** Drops leading whitespace. */
  function TrimStart(u: Unicode, s: string): (r: string)
    ensures |r| <= |s| && r == s[|s| - |r|..]
    ensures r == [] || !u.isSpace(r[0])
    ensures forall k :: 0 <= k < |s| - |r| ==> u.isSpace(s[k])
  {
    if s != [] && u.isSpace(s[0]) then TrimStart(u, s[1..]) else s
  }

  /** Drops trailing whitespace. */
  function TrimEnd(u: Unicode, s: string): (r: string)
    ensures |r| <= |s| && r == s[..|r|]
    ensures r == [] || !u.isSpace(r[|r| - 1])
    ensures forall k :: |r| <= k < |s| ==> u.isSpace(s[k])
  {
    if s != [] && u.isSpace(s[|s| - 1]) then TrimEnd(u, s[..|s| - 1]) else s
  }

  /** `r` is `s[i..i + |r|]`, and everything of `s` outside that infix is whitespace. */
  ghost predicate InfixByTrimming(u: Unicode, s: string, r: string, i: int) {
    0 <= i <= |s| - |r| && r == s[i..i + |r|]
    && forall k :: (0 <= k < i || i + |r| <= k < |s|) ==> u.isSpace(s[k])
  }

  /** `str.strip()`: whitespace removed at both ends. */
  function Strip(u: Unicode, s: string): (r: string)
    ensures Trimmed(u, r)
  {
    TrimEnd(u, TrimStart(u, s))
  }

  /** Stripping removes whitespace at the two ends and nothing else. */
  lemma StripIsInfix(u: Unicode, s: string)
    ensures exists i :: InfixByTrimming(u, s, Strip(u, s), i)
  {
    var t := TrimStart(u, s);
    var r := TrimEnd(u, t);
    var i := |s| - |t|;
    assert t == s[i..];
    assert r == s[i..i + |r|];
    forall k | i + |r| <= k < |s| ensures u.isSpace(s[k]) {
      assert s[k] == t[k - i];
    }
    assert r == Strip(u, s);
    assert InfixByTrimming(u, s, r, i);
  }

  /** Stripping adds no character. */
  lemma StripChars(u: Unicode, s: string)
    ensures forall c :: c in Strip(u, s) ==> c in s
  {
    var r := Strip(u, s);
    StripIsInfix(u, s);
    var i :| InfixByTrimming(u, s, r, i);
    forall c | c in r ensures c in s {
      var k :| 0 <= k < |r| && r[k] == c;
      assert s[i + k] == c;
    }
  }

  /** `re.sub(r'\s+', ' ', s)`: every maximal whitespace run becomes one space. */
  function Collapse(u: Unicode, s: string): string
    decreases |s|
  {
    if s == [] then []
    else if u.isSpace(s[0]) then
      [' '] + Collapse(u, TrimStart(u, s[1..]))
    else
      [s[0]] + Collapse(u, s[1..])
  }

  /** Collapsing keeps text empty exactly when it was, and keeps a non-whitespace first or last character. */
  lemma {:induction false} CollapseEnds(u: Unicode, s: string)
    ensures var r := Collapse(u, s);
            && (s == [] <==> r == [])
            && (s != [] && !u.isSpace(s[0]) ==> r[0] == s[0])
            && (s != [] && !u.isSpace(s[|s| - 1]) ==> r[|r| - 1] == s[|s| - 1])
    decreases |s|
  {
    if s != [] {
      var t := if u.isSpace(s[0]) then TrimStart(u, s[1..]) else s[1..];
      CollapseEnds(u, t);
      if t != [] {
        assert t[|t| - 1] == s[|s| - 1];
      }
    }
  }

  lemma NoDoubleSpaceCons(u: Unicode, x: char, c: string)
    requires NoDoubleSpace(u, c) && (c == [] || !u.isSpace(x) || !u.isSpace(c[0]))
    ensures NoDoubleSpace(u, [x] + c)
  {
    var r := [x] + c;
    forall k | 0 <= k < |r| - 1 ensures !(u.isSpace(r[k]) && u.isSpace(r[k + 1])) {
      if k > 0 { assert r[k] == c[k - 1] && r[k + 1] == c[k]; }
    }
  }

  /** Collapsing leaves no two adjacent whitespace characters. */
  lemma {:induction false} CollapseNoDoubleSpace(u: Unicode, s: string)
    ensures NoDoubleSpace(u, Collapse(u, s))
    decreases |s|
  {
    if s != [] {
      if u.isSpace(s[0]) {
        var t := TrimStart(u, s[1..]);
        CollapseNoDoubleSpace(u, t);
        CollapseEnds(u, t);
        NoDoubleSpaceCons(u, ' ', Collapse(u, t));
      } else {
        CollapseNoDoubleSpace(u, s[1..]);
        NoDoubleSpaceCons(u, s[0], Collapse(u, s[1..]));
      }
    }
  }

  /** Collapsing introduces no character except the plain space. */
  lemma {:induction false} CollapseChars(u: Unicode, s: string)
    ensures forall c :: c in Collapse(u, s) ==> c == ' ' || c in s
    decreases |s|
  {
    if s != [] {
      if u.isSpace(s[0]) {
        var t := TrimStart(u, s[1..]);
        CollapseChars(u, t);
        assert forall c :: c in t ==> c in s[1..];
      } else {
        CollapseChars(u, s[1..]);
      }
    }
  }

  /**
   * `normalize_text`: None (the source's None or any non-string cell) stays
   * None; text comes back trimmed and with single spaces between words.
   */
  function NormalizeText(u: Unicode, text: Option<string>): (r: Option<string>)
    ensures r.None? <==> text.None?
    ensures r.Some? ==> Trimmed(u, r.value) && NoDoubleSpace(u, r.value)
  {
    match text
    case None => None
    case Some(t) =>
      var stripped := Strip(u, Lower(u, DropMarks(u, u.nfd(t))));
      CollapseEnds(u, stripped);
      CollapseNoDoubleSpace(u, stripped);
      Some(Collapse(u, stripped))
  }

  /** The lowercased, mark-free text that `NormalizeText` then trims and collapses. */
  function Folded(u: Unicode, t: string): string {
    Lower(u, DropMarks(u, u.nfd(t)))
  }

  lemma {:induction false} LowerAddsNoMarks(u: Unicode, s: string)
    requires LowerAddsNoMark(u)
    ensures forall k :: 0 <= k < |Lower(u, s)| ==> !u.isMark(Lower(u, s)[k])
  {
    if s != [] {
      LowerAddsNoMarks(u, s[1..]);
      var h := u.lower(s[0]);
      assert Lower(u, s) == h + Lower(u, s[1..]);
      forall k | 0 <= k < |Lower(u, s)| ensures !u.isMark(Lower(u, s)[k]) {
        if k < |h| { assert Lower(u, s)[k] == u.lower(s[0])[k]; }
        else { assert Lower(u, s)[k] == Lower(u, s[1..])[k - |h|]; }
      }
    }
  }

  lemma {:induction false} LowerYieldsFixedPoints(u: Unicode, s: string)
    requires LowerIsIdempotent(u)
    ensures forall k :: 0 <= k < |Lower(u, s)| ==> u.lower(Lower(u, s)[k]) == [Lower(u, s)[k]]
  {
    if s != [] {
      LowerYieldsFixedPoints(u, s[1..]);
      var h := u.lower(s[0]);
      assert Lower(u, s) == h + Lower(u, s[1..]);
      forall k | 0 <= k < |Lower(u, s)| ensures u.lower(Lower(u, s)[k]) == [Lower(u, s)[k]] {
        if k < |h| { assert Lower(u, s)[k] == u.lower(s[0])[k]; }
        else { assert Lower(u, s)[k] == Lower(u, s[1..])[k - |h|]; }
      }
    }
  }

  lemma {:induction false} LowerOfFixedPoints(u: Unicode, s: string)
    requires forall k :: 0 <= k < |s| ==> u.lower(s[k]) == [s[k]]
    ensures Lower(u, s) == s
  {
    if s != [] {
      LowerOfFixedPoints(u, s[1..]);
    }
  }

  /** The normalised text contains no `Mn` character. */
  lemma NormalizeDropsMarks(u: Unicode, t: string)
    requires SpaceIsPlain(u) && LowerAddsNoMark(u)
    ensures var r := NormalizeText(u, Some(t)).value;
            forall k :: 0 <= k < |r| ==> !u.isMark(r[k])
  {
    var l := Folded(u, t);
    LowerAddsNoMarks(u, DropMarks(u, u.nfd(t)));
    var m := Strip(u, l);
    StripChars(u, l);
    CollapseChars(u, m);
    var r := Collapse(u, m);
    forall k | 0 <= k < |r| ensures !u.isMark(r[k]) {
      assert r[k] in r;
      if r[k] != ' ' {
        assert r[k] in m && r[k] in l;
      }
    }
  }

  /** The normalised text is its own lowercase (`r.lower() == r`). */
  lemma NormalizeIsLowercase(u: Unicode, t: string)
    requires SpaceIsPlain(u) && LowerIsIdempotent(u)
    ensures var r := NormalizeText(u, Some(t)).value;
            Lower(u, r) == r
  {
    var l := Folded(u, t);
    LowerYieldsFixedPoints(u, DropMarks(u, u.nfd(t)));
    var m := Strip(u, l);
    StripChars(u, l);
    CollapseChars(u, m);
    var r := Collapse(u, m);
    forall k | 0 <= k < |r| ensures u.lower(r[k]) == [r[k]] {
      assert r[k] in r;
      if r[k] != ' ' {
        assert r[k] in m && r[k] in l;
      }
    }
    LowerOfFixedPoints(u, r);
  }

  lemma {:induction false} NonSpaceTrimStart(u: Unicode, s: string)
    ensures NonSpace(u, TrimStart(u, s)) == NonSpace(u, s)
  {
    if s != [] && u.isSpace(s[0]) {
      NonSpaceTrimStart(u, s[1..]);
    }
  }

  lemma {:induction false} NonSpaceAppend(u: Unicode, a: string, b: string)
    ensures NonSpace(u, a + b) == NonSpace(u, a) + NonSpace(u, b)
  {
    if a != [] {
      assert (a + b)[1..] == a[1..] + b;
      NonSpaceAppend(u, a[1..], b);
    } else {
      assert a + b == b;
    }
  }

  lemma NonSpaceTrimEnd(u: Unicode, s: string)
    ensures NonSpace(u, TrimEnd(u, s)) == NonSpace(u, s)
  {
    var r := TrimEnd(u, s);
    var tail := s[|r|..];
    assert s == r + tail;
    NonSpaceAppend(u, r, tail);
    NonSpaceAllSpace(u, tail);
  }

  lemma {:induction false} NonSpaceAllSpace(u: Unicode, s: string)
    requires forall k :: 0 <= k < |s| ==> u.isSpace(s[k])
    ensures NonSpace(u, s) == []
  {
    if s != [] {
      NonSpaceAllSpace(u, s[1..]);
    }
  }

  lemma {:induction false} NonSpaceCollapse(u: Unicode, s: string)
    requires u.isSpace(' ')
    ensures NonSpace(u, Collapse(u, s)) == NonSpace(u, s)
    decreases |s|
  {
    if s != [] {
      if u.isSpace(s[0]) {
        var t := TrimStart(u, s[1..]);
        NonSpaceCollapse(u, t);
        NonSpaceTrimStart(u, s[1..]);
        assert ([' '] + Collapse(u, t))[1..] == Collapse(u, t);
      } else {
        NonSpaceCollapse(u, s[1..]);
        assert ([s[0]] + Collapse(u, s[1..]))[1..] == Collapse(u, s[1..]);
      }
    }
  }

  /** Normalising changes no word: only whitespace runs are trimmed or shortened. */
  lemma NormalizeKeepsWords(u: Unicode, t: string)
    requires u.isSpace(' ')
    ensures NonSpace(u, NormalizeText(u, Some(t)).value) == NonSpace(u, Folded(u, t))
  {
    var l := Folded(u, t);
    var a := TrimStart(u, l);
    NonSpaceTrimStart(u, l);
    NonSpaceTrimEnd(u, a);
    NonSpaceCollapse(u, Strip(u, l));
  }

  /** Length of the run of non-whitespace characters that starts `s`. */
  function WordLen(u: Unicode, s: string): (n: nat)
    ensures n <= |s|
    ensures forall k :: 0 <= k < n ==> !u.isSpace(s[k])
    ensures n == |s| || u.isSpace(s[n])
  {
    if s == [] || u.isSpace(s[0]) then 0 else 1 + WordLen(u, s[1..])
  }

  /** `str.split()`: the maximal runs of non-whitespace characters, in order. */
  function Words(u: Unicode, s: string): (ws: seq<string>)
    decreases |s|
    ensures forall i :: 0 <= i < |ws| ==> ws[i] != []
    ensures forall i, k :: 0 <= i < |ws| && 0 <= k < |ws[i]| ==> !u.isSpace(ws[i][k])
  {
    if s == [] then []
    else if u.isSpace(s[0]) then Words(u, s[1..])
    else
      var n := WordLen(u, s);
      [s[..n]] + Words(u, s[n..])
  }

  /** `' '.join(ws)`. */
  function Join(ws: seq<string>): string {
    if ws == [] then [] else if |ws| == 1 then ws[0] else ws[0] + " " + Join(ws[1..])
  }

  lemma {:induction false} WordsTrimStart(u: Unicode, s: string)
    ensures Words(u, TrimStart(u, s)) == Words(u, s)
  {
    if s != [] && u.isSpace(s[0]) {
      WordsTrimStart(u, s[1..]);
    }
  }

  lemma {:induction false} WordsAllSpace(u: Unicode, w: string)
    requires forall k :: 0 <= k < |w| ==> u.isSpace(w[k])
    ensures Words(u, w) == []
  {
    if w != [] {
      WordsAllSpace(u, w[1..]);
    }
  }

  lemma {:induction false} WordLenAppend(u: Unicode, a: string, w: string)
    requires w == [] || u.isSpace(w[0])
    ensures WordLen(u, a + w) == WordLen(u, a)
  {
    if a == [] {
      assert a + w == w;
    } else if !u.isSpace(a[0]) {
      assert (a + w)[1..] == a[1..] + w;
      WordLenAppend(u, a[1..], w);
    }
  }

  /** Trailing whitespace adds no word. */
  lemma {:induction false} WordsAppendSpaces(u: Unicode, a: string, w: string)
    requires forall k :: 0 <= k < |w| ==> u.isSpace(w[k])
    ensures Words(u, a + w) == Words(u, a)
    decreases |a|
  {
    if a == [] {
      assert a + w == w;
      WordsAllSpace(u, w);
    } else if u.isSpace(a[0]) {
      assert (a + w)[1..] == a[1..] + w;
      WordsAppendSpaces(u, a[1..], w);
    } else {
      var n := WordLen(u, a);
      WordLenAppend(u, a, w);
      assert (a + w)[..n] == a[..n];
      assert (a + w)[n..] == a[n..] + w;
      WordsAppendSpaces(u, a[n..], w);
    }
  }

  lemma WordsTrimEnd(u: Unicode, s: string)
    ensures Words(u, TrimEnd(u, s)) == Words(u, s)
  {
    var r := TrimEnd(u, s);
    assert s == r + s[|r|..];
    WordsAppendSpaces(u, r, s[|r|..]);
  }

  /** Collapsing copies a leading run of non-whitespace unchanged. */
  lemma {:induction false} CollapseWord(u: Unicode, w: string, rest: string)
    requires forall k :: 0 <= k < |w| ==> !u.isSpace(w[k])
    ensures Collapse(u, w + rest) == w + Collapse(u, rest)
  {
    if w == [] {
      assert w + rest == rest;
    } else {
      var s := w + rest;
      assert s[0] == w[0] && !u.isSpace(s[0]);
      assert s[1..] == w[1..] + rest;
      CollapseWord(u, w[1..], rest);
      assert [w[0]] + w[1..] == w;
    }
  }

  /** After the first word of trimmed text come whitespace and then trimmed text again. */
  lemma AfterFirstWord(u: Unicode, t: string, n: nat)
    requires Trimmed(u, t) && t != [] && n == WordLen(u, t) && n < |t|
    ensures u.isSpace(t[n]) && n + 1 < |t|
    ensures TrimStart(u, t[n + 1..]) != [] && Trimmed(u, TrimStart(u, t[n + 1..]))
  {
    var x := t[n + 1..];
    assert x[|x| - 1] == t[|t| - 1];
    var r := TrimStart(u, x);
    assert r != [] by {
      assert !u.isSpace(x[|x| - 1]);
    }
    assert r[|r| - 1] == x[|x| - 1];
  }

  /** A leading whitespace run becomes one space and adds no word. */
  lemma CollapseSpaceRun(u: Unicode, s: string)
    requires s != [] && u.isSpace(s[0])
    ensures Collapse(u, s) == " " + Collapse(u, TrimStart(u, s[1..]))
    ensures Words(u, s) == Words(u, TrimStart(u, s[1..]))
  {
    WordsTrimStart(u, s[1..]);
  }

  lemma JoinCons(w: string, ws: seq<string>)
    requires ws != []
    ensures Join([w] + ws) == w + " " + Join(ws)
  {
    assert ([w] + ws)[1..] == ws;
  }

  /** A word followed by whitespace collapses to that word, one space, then the rest collapsed. */
  lemma CollapseStep(u: Unicode, w: string, rest: string)
    requires forall k :: 0 <= k < |w| ==> !u.isSpace(w[k])
    requires rest != [] && u.isSpace(rest[0])
    ensures Collapse(u, w + rest) == w + " " + Collapse(u, TrimStart(u, rest[1..]))
  {
    CollapseWord(u, w, rest);
    CollapseSpaceRun(u, rest);
  }

  /** Text whose first word ends before the text does: that word, one space, then the rest collapsed. */
  lemma CollapseAfterWord(u: Unicode, t: string, n: nat)
    requires n < |t| && u.isSpace(t[n])
    requires forall k :: 0 <= k < n ==> !u.isSpace(t[k])
    ensures Collapse(u, t) == t[..n] + " " + Collapse(u, TrimStart(u, t[n + 1..]))
  {
    var w, rest := t[..n], t[n..];
    assert w + rest == t;
    assert rest[1..] == t[n + 1..];
    CollapseStep(u, w, rest);
  }

  /** The words of text that starts with a word: that word, then the words of what follows. */
  lemma WordsStep(u: Unicode, t: string, n: nat)
    requires t != [] && !u.isSpace(t[0]) && n == WordLen(u, t) && n < |t|
    ensures Words(u, t) == [t[..n]] + Words(u, TrimStart(u, t[n + 1..]))
  {
    var rest := t[n..];
    assert rest[0] == t[n] && rest[1..] == t[n + 1..];
    assert Words(u, rest) == Words(u, t[n + 1..]);
    WordsTrimStart(u, t[n + 1..]);
  }

  /** On trimmed text, collapsing joins the words with single spaces. */
  lemma {:induction false} CollapseTrimmed(u: Unicode, t: string)
    requires Trimmed(u, t)
    ensures Collapse(u, t) == Join(Words(u, t))
    decreases |t|
  {
    if t != [] {
      var n := WordLen(u, t);
      if n == |t| {
        CollapseWord(u, t, []);
        assert t + [] == t;
        WordsAllSpace(u, []);
        assert t[..n] == t && t[n..] == [];
      } else {
        AfterFirstWord(u, t, n);
        CollapseAfterWord(u, t, n);
        WordsStep(u, t, n);
        var t' := TrimStart(u, t[n + 1..]);
        CollapseTrimmed(u, t');
        JoinCons(t[..n], Words(u, t'));
      }
    }
  }

  /**
   * `normalize_text` is `' '.join(s.split())` of the lowercased, mark-free
   * text: the words are kept, in order, separated by exactly one space.
   */
  lemma NormalizeIsJoinOfWords(u: Unicode, t: string)
    ensures NormalizeText(u, Some(t)).value == Join(Words(u, Folded(u, t)))
  {
    var l := Folded(u, t);
    var s := Strip(u, l);
    CollapseTrimmed(u, s);
    WordsTrimEnd(u, TrimStart(u, l));
    WordsTrimStart(u, l);
  }
}
