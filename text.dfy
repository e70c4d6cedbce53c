/**
 * The string operations the engine relies on: the letter filter and lower-casing of
 * the tokenizer, java.lang.String.split on runs of whitespace and on the literal "-->",
 * the "-->" join that spells a path, and Integer.toString for weights.
 */
module Text {

  // ---------------------------------------------------------------------------
  // Characters
  // ---------------------------------------------------------------------------

  /** Membership in the regular-expression class [A-Za-z]. */
  predicate IsLetter(c: char)
  {
    'A' <= c <= 'Z' || 'a' <= c <= 'z'
  }

  /** Membership in the regular-expression class \s: [ \t\n\x0B\f\r]. */
  predicate IsSpace(c: char)
  {
    c == ' ' || c == '\t' || c == '\n' || c == '\U{B}' || c == '\U{C}' || c == '\r'
  }

  /** Lower-casing of one character; on ASCII letters and spaces it agrees with String.toLowerCase. */
  function LowerChar(c: char): (r: char)
    ensures 'A' <= c <= 'Z' ==> 'a' <= r <= 'z' && r as int == c as int + 32
    ensures !('A' <= c <= 'Z') ==> r == c
  {
    if 'A' <= c <= 'Z' then (c as int + 32) as char else c
  }

  // ---------------------------------------------------------------------------
  // Whole strings
  // ---------------------------------------------------------------------------

  /** replaceAll("[^A-Za-z]", " "): every non-letter becomes a space, letters stay in place. */
  function FilterLetters(s: string): (r: string)
    ensures |r| == |s|
    ensures forall i :: 0 <= i < |s| && IsLetter(s[i]) ==> r[i] == s[i]
    ensures forall i :: 0 <= i < |s| && !IsLetter(s[i]) ==> r[i] == ' '
  {
    if s == [] then []
    else [if IsLetter(s[0]) then s[0] else ' '] + FilterLetters(s[1..])
  }

  /** toLowerCase, character by character. */
  function Lower(s: string): (r: string)
    ensures |r| == |s|
    ensures forall i :: 0 <= i < |s| ==> r[i] == LowerChar(s[i])
  {
    if s == [] then []
    else [LowerChar(s[0])] + Lower(s[1..])
  }

  /** Lower-casing distributes over concatenation. */
  lemma LowerAppend(a: string, b: string)
    ensures Lower(a + b) == Lower(a) + Lower(b)
  {
    var l, r := Lower(a + b), Lower(a) + Lower(b);
    forall i | 0 <= i < |l| ensures l[i] == r[i] {
      if i < |a| {
        assert (a + b)[i] == a[i];
      } else {
        assert (a + b)[i] == b[i - |a|];
      }
    }
    assert l == r;
  }

  /** No character of `s` satisfies \s. */
  predicate NoSpace(s: string)
  {
    forall i :: 0 <= i < |s| ==> !IsSpace(s[i])
  }

  // ---------------------------------------------------------------------------
  // String.split("\\s+")
  // ---------------------------------------------------------------------------

  /** The position of the first whitespace character, or |s| when there is none. */
  function FirstSpace(s: string): (i: nat)
    ensures i <= |s|
    ensures NoSpace(s[..i])
    ensures i < |s| ==> IsSpace(s[i])
  {
    if s == [] then 0
    else if IsSpace(s[0]) then 0
    else
      var j := FirstSpace(s[1..]);
      assert s[..1 + j] == [s[0]] + s[1..][..j];
      1 + j
  }

  /** `s` without its leading run of whitespace. */
  function SkipSpaces(s: string): (r: string)
    ensures |r| <= |s| && r == s[|s| - |r|..]
    ensures forall i :: 0 <= i < |s| - |r| ==> IsSpace(s[i])
    ensures r == [] || !IsSpace(r[0])
    ensures s != [] && IsSpace(s[0]) ==> |r| < |s|
  {
    if s != [] && IsSpace(s[0]) then SkipSpaces(s[1..]) else s
  }

  /** The pieces between the maximal runs of whitespace, including empty end pieces. */
  function SpacePieces(s: string): (ps: seq<string>)
    ensures |ps| >= 1
    decreases |s|
  {
    var i := FirstSpace(s);
    if i == |s| then [s]
    else [s[..i]] + SpacePieces(SkipSpaces(s[i..]))
  }

  /** The list without its trailing empty strings (String.split with limit 0). */
  function DropTrailingEmpty(ps: seq<string>): (r: seq<string>)
    ensures |r| <= |ps| && r == ps[..|r|]
    ensures r == [] || r[|r| - 1] != ""
    ensures forall k :: |r| <= k < |ps| ==> ps[k] == ""
  {
    if ps != [] && ps[|ps| - 1] == "" then DropTrailingEmpty(ps[..|ps| - 1]) else ps
  }

  /** java.lang.String.split("\\s+"): the whole string when nothing matches, otherwise the pieces
      between whitespace runs (a leading empty piece when `s` starts with whitespace) without
      trailing empty pieces. */
  function SplitSpaces(s: string): seq<string>
  {
    if FirstSpace(s) == |s| then [s] else DropTrailingEmpty(SpacePieces(s))
  }

  /** No piece contains whitespace. */
  lemma {:induction false} SpacePiecesNoSpace(s: string)
    ensures forall k :: 0 <= k < |SpacePieces(s)| ==> NoSpace(SpacePieces(s)[k])
    decreases |s|
  {
    var i := FirstSpace(s);
    if i < |s| {
      SpacePiecesNoSpace(SkipSpaces(s[i..]));
    }
  }

  /** Every piece after the first is non-empty, unless it is the very last one. */
  lemma {:induction false} SpacePiecesInnerNonEmpty(s: string)
    ensures InnerNonEmpty(SpacePieces(s))
    ensures s != [] && !IsSpace(s[0]) ==> SpacePieces(s)[0] != ""
    decreases |s|
  {
    var i := FirstSpace(s);
    var ps := SpacePieces(s);
    if i < |s| {
      var t := SkipSpaces(s[i..]);
      var qs := SpacePieces(t);
      assert ps == [s[..i]] + qs;
      SpacePiecesInnerNonEmpty(t);
      if |qs| > 1 {
        assert t != [] && !IsSpace(t[0]);
        assert qs[0] != "";
      }
      InnerNonEmptyCons(s[..i], qs);
      if s != [] && !IsSpace(s[0]) {
        assert ps[0] == s[..i];
      }
    }
  }

  /** Every element strictly between the first and the last is non-empty. */
  predicate InnerNonEmpty(ps: seq<string>)
  {
    forall k :: 1 <= k < |ps| - 1 ==> ps[k] != ""
  }

  lemma InnerNonEmptyCons(h: string, qs: seq<string>)
    requires InnerNonEmpty(qs)
    requires |qs| > 1 ==> qs[0] != ""
    ensures InnerNonEmpty([h] + qs)
  {
    forall k | 1 <= k < |qs| ensures ([h] + qs)[k] != "" {
      assert ([h] + qs)[k] == qs[k - 1];
    }
  }

  /** The tokens of split("\\s+") contain no whitespace, and only the first may be empty: it is
      empty exactly when the string is empty or starts with whitespace and yields any token. */
  lemma {:induction false} SplitSpacesTokens(s: string)
    ensures forall k :: 0 <= k < |SplitSpaces(s)| ==> NoSpace(SplitSpaces(s)[k])
    ensures forall k :: 1 <= k < |SplitSpaces(s)| ==> SplitSpaces(s)[k] != ""
    ensures s != [] && !IsSpace(s[0]) ==> SplitSpaces(s) != [] && SplitSpaces(s)[0] != ""
    ensures s == [] ==> SplitSpaces(s) == [""]
    ensures s != [] && IsSpace(s[0]) && SplitSpaces(s) != [] ==> SplitSpaces(s)[0] == ""
  {
    var i := FirstSpace(s);
    if i == |s| {
      assert s[..i] == s;
    } else {
      var ps := SpacePieces(s);
      SpacePiecesNoSpace(s);
      SpacePiecesInnerNonEmpty(s);
      DropTrailingTokens(ps);
      if IsSpace(s[0]) {
        assert i == 0 && ps[0] == s[..0] == "";
      }
    }
  }

  /** Dropping the trailing empty pieces keeps pieces without whitespace, of which only the
      first may be empty, and keeps a non-empty first piece. */
  lemma DropTrailingTokens(ps: seq<string>)
    requires forall k :: 0 <= k < |ps| ==> NoSpace(ps[k])
    requires InnerNonEmpty(ps)
    ensures forall k :: 0 <= k < |DropTrailingEmpty(ps)| ==> NoSpace(DropTrailingEmpty(ps)[k])
    ensures forall k :: 1 <= k < |DropTrailingEmpty(ps)| ==> DropTrailingEmpty(ps)[k] != ""
    ensures ps != [] && ps[0] != "" ==> DropTrailingEmpty(ps) != [] && DropTrailingEmpty(ps)[0] != ""
  {
    var ts := DropTrailingEmpty(ps);
    var n := |ts|;
    forall k | 0 <= k < n ensures NoSpace(ts[k]) {
      assert ts[k] == ps[k];
    }
    forall k | 1 <= k < n ensures ts[k] != "" {
      assert ts[k] == ps[k];
      if k < n - 1 {
        assert k < |ps| - 1;
      }
    }
  }

  /** The concatenation of a list of strings. */
  function Concat(ps: seq<string>): string
  {
    if ps == [] then "" else ps[0] + Concat(ps[1..])
  }

  /** The characters of `s` that are not whitespace, in order. */
  function NonSpace(s: string): string
  {
    if s == [] then "" else (if IsSpace(s[0]) then "" else [s[0]]) + NonSpace(s[1..])
  }

  lemma {:induction false} NonSpaceAppend(a: string, b: string)
    ensures NonSpace(a + b) == NonSpace(a) + NonSpace(b)
  {
    if a != [] {
      assert (a + b)[1..] == a[1..] + b;
      NonSpaceAppend(a[1..], b);
    } else {
      assert a + b == b;
    }
  }

  lemma {:induction false} NonSpaceOfNoSpace(s: string)
    requires NoSpace(s)
    ensures NonSpace(s) == s
  {
    if s != [] {
      NonSpaceOfNoSpace(s[1..]);
    }
  }

  lemma {:induction false} NonSpaceOfSpaces(s: string, m: nat)
    requires m <= |s|
    requires forall i :: 0 <= i < m ==> IsSpace(s[i])
    ensures NonSpace(s) == NonSpace(s[m..])
  {
    if m > 0 {
      assert s[1..][m - 1..] == s[m..];
      NonSpaceOfSpaces(s[1..], m - 1);
    }
  }

  /** split("\\s+") loses no character except whitespace: its pieces concatenate to the
      non-whitespace characters of the input, in order. */
  lemma {:induction false} SpacePiecesKeepText(s: string)
    ensures Concat(SpacePieces(s)) == NonSpace(s)
    decreases |s|
  {
    var i := FirstSpace(s);
    if i == |s| {
      assert s[..i] == s;
      NonSpaceOfNoSpace(s);
      assert Concat([s]) == s + Concat([]);
    } else {
      var t := SkipSpaces(s[i..]);
      SpacePiecesKeepText(t);
      ConcatCons(s[..i], SpacePieces(t));
      NonSpaceSplit(s, i, t);
    }
  }

  lemma ConcatCons(p: string, ps: seq<string>)
    ensures Concat([p] + ps) == p + Concat(ps)
  {
    assert ([p] + ps)[1..] == ps;
  }

  /** Up to the first whitespace run nothing is dropped, and the run itself is dropped. */
  lemma {:induction false} NonSpaceSplit(s: string, i: nat, t: string)
    requires i == FirstSpace(s) < |s| && t == SkipSpaces(s[i..])
    ensures NonSpace(s) == s[..i] + NonSpace(t)
  {
    var m := |s[i..]| - |t|;
    assert s[i + m..] == t;
    NonSpaceAround(s, i, m);
  }

  /** A whitespace-free head is kept whole and a whitespace run after it is dropped. */
  lemma {:induction false} NonSpaceAround(s: string, i: nat, m: nat)
    requires i + m <= |s| && NoSpace(s[..i])
    requires forall j :: i <= j < i + m ==> IsSpace(s[j])
    ensures NonSpace(s) == s[..i] + NonSpace(s[i + m..])
  {
    var u := s[i..];
    assert s[..i] + u == s;
    NonSpaceAppend(s[..i], u);
    NonSpaceOfNoSpace(s[..i]);
    assert u[m..] == s[i + m..];
    NonSpaceOfSpaces(u, m);
  }

  lemma {:induction false} ConcatDropTrailing(ps: seq<string>)
    ensures Concat(DropTrailingEmpty(ps)) == Concat(ps)
  {
    if ps != [] && ps[|ps| - 1] == "" {
      ConcatSnoc(ps[..|ps| - 1], "");
      assert ps[..|ps| - 1] + [""] == ps;
      ConcatDropTrailing(ps[..|ps| - 1]);
    }
  }

  lemma {:induction false} ConcatSnoc(ps: seq<string>, x: string)
    ensures Concat(ps + [x]) == Concat(ps) + x
  {
    if ps == [] {
      assert [] + [x] == [x];
      assert Concat([x]) == x + Concat([]);
    } else {
      assert (ps + [x])[1..] == ps[1..] + [x];
      ConcatSnoc(ps[1..], x);
    }
  }

  /** The tokens of split("\\s+") concatenate to the non-whitespace text of the input. */
  lemma SplitSpacesKeepText(s: string)
    ensures Concat(SplitSpaces(s)) == NonSpace(s)
  {
    SpacePiecesKeepText(s);
    if FirstSpace(s) < |s| {
      ConcatDropTrailing(SpacePieces(s));
    }
  }

  // --- Lower-casing commutes with splitting -----------------------------------

  /** Lower-case every token. */
  function LowerAll(ps: seq<string>): (r: seq<string>)
    ensures |r| == |ps|
    ensures forall k :: 0 <= k < |ps| ==> r[k] == Lower(ps[k])
  {
    if ps == [] then [] else [Lower(ps[0])] + LowerAll(ps[1..])
  }

  lemma LowerKeepsSpaces(s: string)
    ensures forall i :: 0 <= i < |s| ==> (IsSpace(Lower(s)[i]) <==> IsSpace(s[i]))
  {
  }

  lemma {:induction false} FirstSpaceLower(s: string)
    ensures FirstSpace(Lower(s)) == FirstSpace(s)
  {
    if s != [] && !IsSpace(s[0]) {
      assert Lower(s)[1..] == Lower(s[1..]);
      FirstSpaceLower(s[1..]);
    }
  }

  lemma {:induction false} SkipSpacesLower(s: string)
    ensures SkipSpaces(Lower(s)) == Lower(SkipSpaces(s))
  {
    if s != [] {
      var l := Lower(s);
      assert l[0] == LowerChar(s[0]);
      assert IsSpace(l[0]) == IsSpace(s[0]);
      if IsSpace(s[0]) {
        assert l[1..] == Lower(s[1..]);
        assert SkipSpaces(l) == SkipSpaces(l[1..]);
        assert SkipSpaces(s) == SkipSpaces(s[1..]);
        SkipSpacesLower(s[1..]);
      }
    }
  }

  lemma {:induction false} SpacePiecesLower(s: string)
    ensures SpacePieces(Lower(s)) == LowerAll(SpacePieces(s))
    decreases |s|
  {
    var i := FirstSpace(s);
    FirstSpaceLower(s);
    if i < |s| {
      assert Lower(s)[..i] == Lower(s[..i]);
      assert Lower(s)[i..] == Lower(s[i..]);
      SkipSpacesLower(s[i..]);
      SpacePiecesLower(SkipSpaces(s[i..]));
    }
  }

  lemma {:induction false} DropTrailingLower(ps: seq<string>)
    ensures DropTrailingEmpty(LowerAll(ps)) == LowerAll(DropTrailingEmpty(ps))
  {
    if ps != [] {
      assert LowerAll(ps)[..|ps| - 1] == LowerAll(ps[..|ps| - 1]);
      DropTrailingLower(ps[..|ps| - 1]);
    }
  }

  /** Splitting and then lower-casing each token (generateNewText) gives the same tokens as
      lower-casing and then splitting (InputFile.read). */
  lemma SplitSpacesLower(s: string)
    ensures SplitSpaces(Lower(s)) == LowerAll(SplitSpaces(s))
  {
    FirstSpaceLower(s);
    SpacePiecesLower(s);
    DropTrailingLower(SpacePieces(s));
  }

  // ---------------------------------------------------------------------------
  // The token normalisation of InputFile.read
  // ---------------------------------------------------------------------------

  /** Non-letters become spaces, then the text is lower-cased and split on whitespace. */
  function Normalise(content: string): seq<string>
  {
    SplitSpaces(Lower(FilterLetters(content)))
  }

  /** Every character is a lower-case ASCII letter. */
  predicate IsLowerWord(w: string)
  {
    forall i :: 0 <= i < |w| ==> 'a' <= w[i] <= 'z'
  }

  /** The normalised tokens are lower-case words; only the first may be empty, and it is
      empty exactly when the text is empty or starts with a non-letter and yields any token. */
  lemma NormaliseTokens(content: string)
    ensures forall k :: 0 <= k < |Normalise(content)| ==> IsLowerWord(Normalise(content)[k])
    ensures forall k :: 1 <= k < |Normalise(content)| ==> Normalise(content)[k] != ""
    ensures content != [] && IsLetter(content[0]) ==>
              Normalise(content) != [] && Normalise(content)[0] != ""
    ensures content == [] ==> Normalise(content) == [""]
    ensures content != [] && !IsLetter(content[0]) && Normalise(content) != [] ==>
              Normalise(content)[0] == ""
  {
    var f := Lower(FilterLetters(content));
    assert forall i :: 0 <= i < |f| ==> IsSpace(f[i]) || 'a' <= f[i] <= 'z';
    if content != [] && !IsLetter(content[0]) {
      assert f[0] == ' ';
    }
    SplitSpacesTokens(f);
    var ts := SplitSpaces(f);
    forall k | 0 <= k < |ts| ensures IsLowerWord(ts[k]) {
      TokenChars(f, k);
    }
  }

  /** The characters of a split token are characters of the split string. */
  lemma TokenChars(f: string, k: nat)
    requires forall i :: 0 <= i < |f| ==> IsSpace(f[i]) || 'a' <= f[i] <= 'z'
    requires k < |SplitSpaces(f)|
    ensures IsLowerWord(SplitSpaces(f)[k])
  {
    var ts := SplitSpaces(f);
    SplitSpacesTokens(f);
    SplitSpacesKeepText(f);
    NonSpaceChars(f);
    ConcatChars(ts, k);
  }

  lemma {:induction false} NonSpaceChars(f: string)
    requires forall i :: 0 <= i < |f| ==> IsSpace(f[i]) || 'a' <= f[i] <= 'z'
    ensures IsLowerWord(NonSpace(f))
  {
    if f != [] {
      NonSpaceChars(f[1..]);
    }
  }

  lemma {:induction false} ConcatChars(ps: seq<string>, k: nat)
    requires k < |ps|
    requires IsLowerWord(Concat(ps))
    ensures IsLowerWord(ps[k])
  {
    assert Concat(ps) == ps[0] + Concat(ps[1..]);
    if k > 0 {
      assert Concat(ps[1..]) == Concat(ps)[|ps[0]|..];
      ConcatChars(ps[1..], k - 1);
    } else {
      assert ps[0] == Concat(ps)[..|ps[0]|];
    }
  }

  /** The letters of `s`, in order. */
  function Letters(s: string): string
  {
    if s == [] then "" else (if IsLetter(s[0]) then [s[0]] else "") + Letters(s[1..])
  }

  /** Nothing but word breaks is lost: the normalised tokens, written one after another,
      spell the letters of the text lower-cased. */
  lemma NormaliseKeepsLetters(content: string)
    ensures Concat(Normalise(content)) == Lower(Letters(content))
  {
    SplitSpacesKeepText(Lower(FilterLetters(content)));
    LettersSurvive(content);
  }

  lemma {:induction false} LettersSurvive(s: string)
    ensures NonSpace(Lower(FilterLetters(s))) == Lower(Letters(s))
  {
    if s != [] {
      var f := Lower(FilterLetters(s));
      assert f == [f[0]] + Lower(FilterLetters(s[1..]));
      LettersSurvive(s[1..]);
      if IsLetter(s[0]) {
        assert Lower(Letters(s)) == [LowerChar(s[0])] + Lower(Letters(s[1..]));
      }
    }
  }

  /** generateNewText re-tokenises without lower-casing; lower-casing its tokens gives
      exactly the tokens InputFile.read would produce from the same text. */
  lemma NormaliseIsLoweredTokens(text: string)
    ensures LowerAll(SplitSpaces(FilterLetters(text))) == Normalise(text)
  {
    SplitSpacesLower(FilterLetters(text));
  }

  // ---------------------------------------------------------------------------
  // Words written out one after another, each followed by a space
  // ---------------------------------------------------------------------------

  /** The words in order, each followed by one space, as a StringBuilder gets them. */
  function Spaced(ws: seq<string>): string
  {
    if ws == [] then "" else Spaced(ws[..|ws| - 1]) + ws[|ws| - 1] + " "
  }

  /** Writing out two lists one after the other writes out their concatenation. */
  lemma {:induction false} SpacedAppend(a: seq<string>, b: seq<string>)
    ensures Spaced(a + b) == Spaced(a) + Spaced(b)
    decreases |b|
  {
    if b == [] {
      assert a + b == a;
    } else {
      var b' := b[..|b| - 1];
      assert (a + b)[..|a + b| - 1] == a + b';
      SpacedAppend(a, b');
    }
  }

  // ---------------------------------------------------------------------------
  // Path strings: "-->" join and String.split("-->")
  // ---------------------------------------------------------------------------

  const Arrow: string := "-->"

  /** The names joined with "-->", as Dijkstra spells a path. */
  function JoinArrow(ns: seq<string>): string
  {
    if |ns| == 0 then ""
    else if |ns| == 1 then ns[0]
    else ns[0] + Arrow + JoinArrow(ns[1..])
  }

  /** Appending a name at the end adds "-->" and the name. */
  lemma {:induction false} JoinArrowSnoc(ns: seq<string>, x: string)
    requires ns != []
    ensures JoinArrow(ns + [x]) == JoinArrow(ns) + Arrow + x
  {
    if |ns| == 1 {
      assert ns + [x] == [ns[0], x];
      assert [ns[0], x][1..] == [x];
    } else {
      assert (ns + [x])[1..] == ns[1..] + [x];
      JoinArrowSnoc(ns[1..], x);
    }
  }

  /** "-->" occurs in `s` at position `j`. */
  predicate ArrowAt(s: string, j: nat)
  {
    j + 3 <= |s| && s[j..j + 3] == Arrow
  }

  /** The position of the first occurrence of "-->", or |s| when there is none. */
  function FindArrow(s: string): (i: nat)
    ensures i <= |s|
    ensures i < |s| ==> ArrowAt(s, i)
    ensures forall j :: 0 <= j < i ==> !ArrowAt(s, j)
  {
    if |s| < 3 then |s|
    else if s[..3] == Arrow then 0
    else
      var j := FindArrow(s[1..]);
      assert forall m :: 1 <= m < 1 + j ==> (ArrowAt(s, m) <==> ArrowAt(s[1..], m - 1));
      1 + j
  }

  /** The pieces between the non-overlapping occurrences of "-->", left to right. */
  function ArrowPieces(s: string): seq<string>
    decreases |s|
  {
    var i := FindArrow(s);
    if i == |s| then [s] else [s[..i]] + ArrowPieces(s[i + 3..])
  }

  /** java.lang.String.split("-->"). */
  function SplitArrow(s: string): seq<string>
  {
    if FindArrow(s) == |s| then [s] else DropTrailingEmpty(ArrowPieces(s))
  }

  /** No character is a dash. */
  predicate DashFree(w: string)
  {
    forall i :: 0 <= i < |w| ==> w[i] != '-'
  }

  lemma ArrowStartsWithDash(s: string, j: nat)
    requires ArrowAt(s, j)
    ensures s[j] == '-'
  {
    assert s[j] == s[j..j + 3][0];
  }

  lemma FindArrowDashFree(x: string, y: string)
    requires DashFree(x)
    ensures FindArrow(x) == |x|
    ensures FindArrow(x + Arrow + y) == |x|
  {
    var s := x + Arrow + y;
    assert s[|x|..|x| + 3] == Arrow;
    assert ArrowAt(s, |x|);
    var i := FindArrow(x);
    if i < |x| {
      ArrowStartsWithDash(x, i);
      assert false;
    }
    forall j | 0 <= j < |x| ensures !ArrowAt(s, j) {
      assert s[j] == x[j];
    }
  }

  lemma {:induction false} ArrowPiecesJoin(ns: seq<string>)
    requires ns != []
    requires forall k :: 0 <= k < |ns| ==> DashFree(ns[k])
    ensures ArrowPieces(JoinArrow(ns)) == ns
  {
    if |ns| == 1 {
      FindArrowDashFree(ns[0], "");
    } else {
      var rest := JoinArrow(ns[1..]);
      FindArrowDashFree(ns[0], rest);
      var s := ns[0] + Arrow + rest;
      assert s[..|ns[0]|] == ns[0];
      assert s[|ns[0]| + 3..] == rest;
      ArrowPiecesJoin(ns[1..]);
    }
  }

  /** Splitting a spelled path on "-->" gives back its names, provided no name contains a dash
      and the last name is not empty (split drops trailing empty strings). */
  lemma SplitArrowJoin(ns: seq<string>)
    requires ns != []
    requires forall k :: 0 <= k < |ns| ==> DashFree(ns[k])
    requires |ns| == 1 || ns[|ns| - 1] != ""
    ensures SplitArrow(JoinArrow(ns)) == ns
  {
    ArrowPiecesJoin(ns);
    if |ns| == 1 {
      FindArrowDashFree(ns[0], "");
    } else {
      FindArrowDashFree(ns[0], JoinArrow(ns[1..]));
      assert |JoinArrow(ns)| > |ns[0]|;
    }
  }

  // ---------------------------------------------------------------------------
  // Integer.toString
  // ---------------------------------------------------------------------------

  predicate IsDigit(c: char)
  {
    '0' <= c <= '9'
  }

  function DigitValue(c: char): nat
    requires IsDigit(c)
  {
    c as int - '0' as int
  }

  /** The decimal digits of `n`, without leading zeros. */
  function NatToString(n: nat): (r: string)
    ensures r != []
    ensures forall i :: 0 <= i < |r| ==> IsDigit(r[i])
    ensures |r| > 1 ==> r[0] != '0'
  {
    var d := [('0' as int + n % 10) as char];
    if n < 10 then d else NatToString(n / 10) + d
  }

  /** Integer.toString: a minus sign for negative values. */
  function IntToString(i: int): string
  {
    if i < 0 then "-" + NatToString(-i) else NatToString(i)
  }

  /** The value of a string of decimal digits. */
  function ParseNat(s: string): nat
    requires forall i :: 0 <= i < |s| ==> IsDigit(s[i])
  {
    if s == [] then 0 else 10 * ParseNat(s[..|s| - 1]) + DigitValue(s[|s| - 1])
  }

  /** The value of an optionally signed decimal string. */
  function ParseInt(s: string): int
    requires s != [] && s[0] == '-' ==> forall i :: 1 <= i < |s| ==> IsDigit(s[i])
    requires s == [] || s[0] != '-' ==> forall i :: 0 <= i < |s| ==> IsDigit(s[i])
  {
    if s != [] && s[0] == '-' then 0 - ParseNat(s[1..]) else ParseNat(s) as int
  }

  lemma {:induction false} NatToStringRoundTrip(n: nat)
    ensures ParseNat(NatToString(n)) == n
  {
    var r := NatToString(n);
    if n >= 10 {
      NatToStringRoundTrip(n / 10);
      assert r[..|r| - 1] == NatToString(n / 10);
    }
  }

  /** Reading back the decimal text of a weight gives the weight. */
  lemma IntToStringRoundTrip(i: int)
    ensures ParseInt(IntToString(i)) == i
  {
    if i < 0 {
      NatToStringRoundTrip(-i);
      assert IntToString(i)[1..] == NatToString(-i);
    } else {
      NatToStringRoundTrip(i);
    }
  }
}
