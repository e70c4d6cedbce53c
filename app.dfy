/**
 * The word-graph application: building the graph from a token list, the bridge-word query
 * and bridge insertion into a new text.  The application's static graph is passed to each
 * operation as `g`.
 */
module App {
  import opened Wrappers
  import opened Seqs
  import opened JavaInt
  import opened Graph
  import opened ShortestPaths
  import Text

  // ---------------------------------------------------------------------------
  // buildGraph
  // ---------------------------------------------------------------------------

  /** How often `b` directly follows `a` in `words`. */
  function PairCount(words: seq<string>, a: string, b: string): nat
    decreases |words|
  {
    if |words| < 2 then 0
    else PairCount(words[..|words| - 1], a, b) + (if words[|words| - 2] == a && words[|words| - 1] == b then 1 else 0)
  }

  /** Extending the prefix by position `i` counts that position's pair. */
  lemma PairCountSnoc(words: seq<string>, i: nat, a: string, b: string)
    requires i < |words|
    ensures PairCount(words[..i + 1], a, b) ==
            PairCount(words[..i], a, b) + (if i >= 1 && words[i - 1] == a && words[i] == b then 1 else 0)
  {
    TakeTake(words, i, i + 1);
  }

  /** Position `i` holds `b` right after an `a`. */
  predicate FollowsAt(words: seq<string>, i: nat, a: string, b: string)
  {
    1 <= i < |words| && words[i - 1] == a && words[i] == b
  }

  /** The positions at which `b` follows `a`. */
  ghost function PairPositions(words: seq<string>, a: string, b: string): set<nat>
  {
    set i: nat | i < |words| && FollowsAt(words, i, a, b)
  }

  /** The count is the number of positions at which the pair occurs. */
  lemma {:induction false} PairCountPositions(words: seq<string>, a: string, b: string)
    ensures PairCount(words, a, b) == |PairPositions(words, a, b)|
    decreases |words|
  {
    if |words| >= 2 {
      var n := |words|;
      var init := words[..n - 1];
      PairCountPositions(init, a, b);
      var last: set<nat> := if words[n - 2] == a && words[n - 1] == b then {n - 1} else {};
      forall i: nat | i < n - 1 ensures FollowsAt(words, i, a, b) == FollowsAt(init, i, a, b) {
        if 1 <= i {
          assert words[i - 1] == init[i - 1] && words[i] == init[i];
        }
      }
      assert PairPositions(words, a, b) == PairPositions(init, a, b) + last;
      assert n - 1 !in PairPositions(init, a, b);
    } else {
      assert PairPositions(words, a, b) == {};
    }
  }

  /** A duplicate-free list has as many elements as its set of elements. */
  lemma {:induction false} DistinctCard(s: seq<string>)
    requires Distinct(s)
    ensures |set x | x in s| == |s|
    decreases |s|
  {
    if s != [] {
      var init := s[..|s| - 1];
      assert Distinct(init);
      DistinctCard(init);
      assert (set x | x in s) == (set x | x in init) + {s[|s| - 1]};
      assert s[|s| - 1] !in init;
    }
  }

  /**
   * buildGraph: one vertex per distinct word, in the iteration order of the HashSet (any
   * duplicate-free arrangement `order` of the words), then one addEdge per consecutive pair.
   * Every entry ends up as the number of times its pair occurs, as a Java int.
   */
  method BuildGraph(words: seq<string>, order: seq<string>) returns (g: AdjMatrixGraph)
    requires Distinct(order) && forall w :: w in order <==> w in words
    ensures fresh(g) && fresh(g.edges)
    ensures g.Valid() && g.vertexes == order && Distinct(g.vertexes)
    ensures g.Size() == |set w | w in words|
    ensures forall a, b :: a in words && b in words ==> g.GetEdge(a, b) == Wrap32(PairCount(words, a, b))
  {
    g := new AdjMatrixGraph.FromVertexes(order);
    var previous: Option<string> := None;
    for i := 0 to |words|
      invariant g.Valid() && g.vertexes == order && fresh(g.edges)
      invariant previous == if i == 0 then None else Some(words[i - 1])
      invariant forall a, b :: a in order && b in order ==> g.GetEdge(a, b) == Wrap32(PairCount(words[..i], a, b))
    {
      if previous.Some? {
        var r := g.AddEdge(previous.value, words[i]);
        forall a, b | a in order && b in order
          ensures g.GetEdge(a, b) == Wrap32(PairCount(words[..i + 1], a, b))
        {
          PairCountSnoc(words, i, a, b);
          if a == words[i - 1] && b == words[i] {
            Inc32Wrap32(PairCount(words[..i], a, b));
          }
        }
      } else {
        forall a, b | a in order && b in order
          ensures g.GetEdge(a, b) == Wrap32(PairCount(words[..i + 1], a, b))
        {
          PairCountSnoc(words, i, a, b);
        }
      }
      previous := Some(words[i]);
    }
    TakeAll(words);
    assert (set w | w in words) == (set w | w in order);
    DistinctCard(order);
  }

  // ---------------------------------------------------------------------------
  // queryBridgeWords
  // ---------------------------------------------------------------------------

  /** The first `t` candidates of `ps`, in order, that have `word2` as a neighbour. */
  function BridgesAmong(s: Snapshot, ps: seq<string>, word2: string, t: nat): seq<string>
    requires WellFormed(s) && t <= |ps|
    decreases t
  {
    if t == 0 then []
    else BridgesAmong(s, ps, word2, t - 1) + (if word2 in NeighborsIn(s, ps[t - 1]) then [ps[t - 1]] else [])
  }

  /** Scanning candidate `t`, whose neighbours are `next`, keeps it exactly when word2 is among them. */
  lemma BridgesAmongStep(s: Snapshot, ps: seq<string>, word2: string, t: nat, next: seq<string>)
    requires WellFormed(s) && t < |ps| && next == NeighborsIn(s, ps[t])
    ensures BridgesAmong(s, ps, word2, t + 1) == BridgesAmong(s, ps, word2, t) + (if word2 in next then [ps[t]] else [])
  {
  }

  /** The bridge words from `word1` to `word2`: the neighbours of word1, in neighbour order,
      that have word2 as a neighbour; none when either word is not a vertex. */
  function Bridges(s: Snapshot, word1: string, word2: string): seq<string>
    requires WellFormed(s)
  {
    if word1 in s.names && word2 in s.names then
      var ps := NeighborsIn(s, word1);
      BridgesAmong(s, ps, word2, |ps|)
    else []
  }

  /** A candidate is kept exactly when it is among the first `t` and word2 is among its
      neighbours. */
  lemma {:induction false} BridgesAmongSpec(s: Snapshot, ps: seq<string>, word2: string, t: nat, x: string)
    requires WellFormed(s) && t <= |ps|
    ensures x in BridgesAmong(s, ps, word2, t) <==> x in ps[..t] && word2 in NeighborsIn(s, x)
    decreases t
  {
    if t > 0 {
      BridgesAmongSpec(s, ps, word2, t - 1, x);
      TakeSnoc(ps, t - 1);
    }
  }

  /** With distinct names, b is a bridge word from word1 to word2 exactly when both words are
      vertices and getEdge(word1, b) and getEdge(b, word2) are both positive. */
  lemma BridgesByEdge(g: AdjMatrixGraph, word1: string, word2: string, b: string)
    requires g.Valid() && Distinct(g.vertexes)
    ensures b in Bridges(g.View(), word1, word2) <==>
              word1 in g.vertexes && word2 in g.vertexes && b in g.vertexes && g.GetEdge(word1, b) > 0 && g.GetEdge(b, word2) > 0
  {
    TakeAll(g.vertexes);
    if word1 in g.vertexes && word2 in g.vertexes {
      var ps := g.Neighbors(word1);
      BridgesAmongSpec(g.View(), ps, word2, |ps|, b);
      TakeAll(ps);
      g.NeighborsByEdge(word1, b);
      g.NeighborsByEdge(b, word2);
    }
  }

  /** queryBridgeWords(word1, word2) without the messages. */
  method QueryBridgeWords(g: AdjMatrixGraph, word1: string, word2: string, ghost s: Snapshot) returns (results: seq<string>)
    requires g.Square() && s == g.View()
    ensures results == Bridges(s, word1, word2)
  {
    results := [];
    var vs := g.GetVertexes();
    assert vs == s.names;
    if word1 in vs && word2 in vs {
      var pos := g.GetNeighbors(word1, s);
      results := KeepBridges(g, pos, word2, s);
    }
  }

  /** The loop of queryBridgeWords: keep, in order, each neighbour `p` of word1 whose own
      neighbours include word2. */
  method KeepBridges(g: AdjMatrixGraph, pos: seq<string>, word2: string, ghost s: Snapshot) returns (results: seq<string>)
    requires g.Square() && s == g.View()
    ensures results == BridgesAmong(s, pos, word2, |pos|)
  {
    results := [];
    for t := 0 to |pos|
      invariant results == BridgesAmong(s, pos, word2, t)
    {
      var p := pos[t];
      var next := g.GetNeighbors(p, s);
      BridgesAmongStep(s, pos, word2, t, next);
      if word2 in next {
        results := results + [p];
      }
    }
  }

  // ---------------------------------------------------------------------------
  // generateNewText
  // ---------------------------------------------------------------------------

  /** `pick(k, n)` is the value of Random.nextInt(n) drawn at token k: below n. */
  ghost predicate IsPicker(pick: (nat, nat) -> nat)
  {
    forall k: nat, n: nat :: 0 < n ==> pick(k, n) < n
  }

  /** The tokens of the new text: non-letters become spaces, then split on whitespace. */
  function NewTextTokens(inputText: string): seq<string>
  {
    Text.SplitSpaces(Text.FilterLetters(inputText))
  }

  /** The bridge word written between a pair with bridge words `bridges`: none, the only one,
      or the one the draw selects. */
  function Pick(bridges: seq<string>, pick: (nat, nat) -> nat, k: nat): (c: Option<string>)
    requires IsPicker(pick)
    ensures c.Some? <==> bridges != []
    ensures c.Some? ==> c.value in bridges
  {
    if |bridges| == 0 then None
    else if |bridges| == 1 then Some(bridges[0])
    else Some(bridges[pick(k, |bridges|)])
  }

  /** The bridge word written before token k: none for the first token, otherwise the pick
      among the bridge words of the lower-cased token before it and the lower-cased token. */
  ghost function Chosen(s: Snapshot, toks: seq<string>, pick: (nat, nat) -> nat, k: nat): Option<string>
    requires WellFormed(s) && IsPicker(pick) && k < |toks|
  {
    if k == 0 then None else Pick(Bridges(s, Text.Lower(toks[k - 1]), Text.Lower(toks[k])), pick, k)
  }

  /** A word is written before token k exactly when the lower-cased pair has a bridge word,
      and it is one of the bridge words. */
  lemma ChosenSpec(s: Snapshot, toks: seq<string>, pick: (nat, nat) -> nat, k: nat)
    requires WellFormed(s) && IsPicker(pick) && k < |toks|
    ensures Chosen(s, toks, pick, k).Some? <==> k > 0 && Bridges(s, Text.Lower(toks[k - 1]), Text.Lower(toks[k])) != []
    ensures Chosen(s, toks, pick, k).Some? ==> Chosen(s, toks, pick, k).value in Bridges(s, Text.Lower(toks[k - 1]), Text.Lower(toks[k]))
  {
  }

  /** The text written for a choice: the word and a space, or nothing. */
  function Written(c: Option<string>): string
  {
    if c.Some? then c.value + " " else ""
  }

  /** The bridge word chosen before each token. */
  ghost function Choices(s: Snapshot, toks: seq<string>, pick: (nat, nat) -> nat): (cs: seq<Option<string>>)
    requires WellFormed(s) && IsPicker(pick)
    ensures |cs| == |toks|
  {
    seq(|toks|, k requires 0 <= k < |toks| => Chosen(s, toks, pick, k))
  }

  /** A token preceded by its bridge word, if any. */
  function Block(c: Option<string>, tok: string): seq<string>
  {
    if c.Some? then [c.value, tok] else [tok]
  }

  /** A block is written as its bridge word and a space, if any, then the token and a space. */
  lemma SpacedBlock(c: Option<string>, tok: string)
    ensures Text.Spaced(Block(c, tok)) == Written(c) + tok + " "
  {
    var b := Block(c, tok);
    if c.Some? {
      TakeSnoc(b, 0);
      assert b[..1] == [c.value];
      assert Text.Spaced([c.value]) == c.value + " ";
    }
  }

  /** The words written for the first m tokens: each token, preceded by its bridge word if any. */
  function Interleave(cs: seq<Option<string>>, toks: seq<string>, m: nat): seq<string>
    requires |cs| == |toks| && m <= |toks|
    decreases m
  {
    if m == 0 then []
    else Interleave(cs, toks, m - 1) + Block(cs[m - 1], toks[m - 1])
  }

  /** Writing token k, after its bridge word if any, extends the text for the tokens before it. */
  lemma InterleaveStep(cs: seq<Option<string>>, toks: seq<string>, k: nat, text: string, written: string)
    requires |cs| == |toks| && k < |toks|
    requires text == Text.Spaced(Interleave(cs, toks, k))
    requires written == Written(cs[k])
    ensures text + written + toks[k] + " " == Text.Spaced(Interleave(cs, toks, k + 1))
  {
    Regroup(text, written, toks[k], " ");
    Text.SpacedAppend(Interleave(cs, toks, k), Block(cs[k], toks[k]));
    SpacedBlock(cs[k], toks[k]);
  }

  /** The words for fewer tokens are a prefix of those for more. */
  lemma {:induction false} InterleavePrefix(cs: seq<Option<string>>, toks: seq<string>, k: nat, m: nat)
    requires |cs| == |toks| && k <= m <= |toks|
    ensures |Interleave(cs, toks, k)| <= |Interleave(cs, toks, m)|
    ensures Interleave(cs, toks, m)[..|Interleave(cs, toks, k)|] == Interleave(cs, toks, k)
    decreases m
  {
    var e, ek := Interleave(cs, toks, m), Interleave(cs, toks, k);
    if k < m {
      InterleavePrefix(cs, toks, k, m - 1);
      PrefixExtend(e, Interleave(cs, toks, m - 1), Block(cs[m - 1], toks[m - 1]), ek);
    } else {
      TakeAll(e);
    }
  }

  /** Token k, in its original case, is written right after the words for the tokens before
      it, preceded by exactly its bridge word when there is one. */
  lemma InterleaveLayout(cs: seq<Option<string>>, toks: seq<string>, k: nat)
    requires |cs| == |toks| && k < |toks|
    ensures var e, before := Interleave(cs, toks, |toks|), |Interleave(cs, toks, k)|;
      && before + (if cs[k].Some? then 2 else 1) <= |e|
      && (cs[k].None? ==> e[before] == toks[k])
      && (cs[k].Some? ==> e[before] == cs[k].value && e[before + 1] == toks[k])
  {
    InterleavePrefix(cs, toks, k + 1, |toks|);
    var e, e1 := Interleave(cs, toks, |toks|), Interleave(cs, toks, k + 1);
    assert forall t :: 0 <= t < |e1| ==> e[t] == e1[t];
  }

  /** The new text for `toks`: every token, preceded by its chosen bridge word. */
  ghost function Emitted(s: Snapshot, toks: seq<string>, pick: (nat, nat) -> nat): seq<string>
    requires WellFormed(s) && IsPicker(pick)
  {
    Interleave(Choices(s, toks, pick), toks, |toks|)
  }

  /** In the new text, token k follows the words written for the tokens before it, preceded by
      exactly the bridge word chosen for it, and that word is a bridge between the lower-cased
      tokens around it. */
  lemma NewTextLayout(s: Snapshot, toks: seq<string>, pick: (nat, nat) -> nat, k: nat)
    requires WellFormed(s) && IsPicker(pick) && k < |toks|
    ensures var e, before, c := Emitted(s, toks, pick), |Interleave(Choices(s, toks, pick), toks, k)|, Chosen(s, toks, pick, k);
      && before + (if c.Some? then 2 else 1) <= |e|
      && (c.None? ==> e[before] == toks[k])
      && (c.Some? ==> e[before] == c.value && e[before + 1] == toks[k] &&
                      c.value in Bridges(s, Text.Lower(toks[k - 1]), Text.Lower(toks[k])))
  {
    InterleaveLayout(Choices(s, toks, pick), toks, k);
    ChosenSpec(s, toks, pick, k);
  }

  /** The bridge part of one step of generateNewText: the chosen bridge word between the
      lower-cased previous token and `word`, and a space, or nothing when they have none. */
  method WriteBridge(g: AdjMatrixGraph, preword: string, word: string, pick: (nat, nat) -> nat, k: nat, ghost s: Snapshot)
    returns (piece: string)
    requires g.Square() && s == g.View() && IsPicker(pick)
    ensures piece == Written(Pick(Bridges(s, preword, Text.Lower(word)), pick, k))
  {
    var bridges := QueryBridgeWords(g, preword, Text.Lower(word), s);
    piece := "";
    if |bridges| == 1 {
      piece := bridges[0] + " ";
    } else if |bridges| > 1 {
      var randomIndex := pick(k, |bridges|);
      piece := bridges[randomIndex] + " ";
    }
  }

  /** The loop of generateNewText over the tokens `words`. */
  method WriteTokens(g: AdjMatrixGraph, words: seq<string>, pick: (nat, nat) -> nat, ghost s: Snapshot)
    returns (result: string)
    requires g.Square() && s == g.View() && IsPicker(pick)
    ensures result == Text.Spaced(Emitted(s, words, pick))
  {
    ghost var cs := Choices(s, words, pick);
    var preword: Option<string> := None;
    result := "";
    for k := 0 to |words|
      invariant preword == if k == 0 then None else Some(Text.Lower(words[k - 1]))
      invariant result == Text.Spaced(Interleave(cs, words, k))
    {
      var word := words[k];
      var piece := "";
      if preword.Some? {
        piece := WriteBridge(g, preword.value, word, pick, k, s);
      }
      assert cs[k] == Chosen(s, words, pick, k);
      InterleaveStep(cs, words, k, result, piece);
      result := result + piece + word + " ";
      preword := Some(Text.Lower(word));
    }
  }

  /** generateNewText: every token in its original case followed by a space, with the chosen
      bridge word (and a space) written before it. */
  method GenerateNewText(g: AdjMatrixGraph, inputText: string, pick: (nat, nat) -> nat, ghost s: Snapshot)
    returns (result: string)
    requires g.Square() && s == g.View() && IsPicker(pick)
    ensures result == Text.Spaced(Emitted(s, NewTextTokens(inputText), pick))
  {
    var words := Text.SplitSpaces(Text.FilterLetters(inputText));
    result := WriteTokens(g, words, pick, s);
  }
}
