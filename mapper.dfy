/** The map stage: `map_line` turns one line into `(word, 1)` pairs and
    `mapper` concatenates those pairs over all lines, in order. */
module Mapper {
  import opened Tokenizer

  /** One emitted pair: a word and its count. */
  type Pair = (string, int)

  /** A pair as `map_line` emits it: a token of the line and the count 1. */
  predicate UnitPair(p: Pair) {
    p.1 == 1 && IsWord(p.0) && AllWordChars(p.0)
  }

  /** The list comprehension `[(w, 1) for w in words if w]`. */
  function Emit(words: seq<string>): (r: seq<Pair>)
    ensures |r| <= |words|
    ensures forall i :: 0 <= i < |r| ==> r[i].1 == 1 && r[i].0 != []
  {
    if words == [] then []
    else (if words[0] != [] then [(words[0], 1)] else []) + Emit(words[1..])
  }

  /** `map_line`. */
  function MapLine(x: string): seq<Pair> {
    Emit(Tokens(x))
  }

  /** Python's `map`: `f` applied to each element, in order. */
  function Map<A, B>(f: A -> B, xs: seq<A>): (r: seq<B>)
    ensures |r| == |xs|
  {
    if xs == [] then [] else [f(xs[0])] + Map(f, xs[1..])
  }

  /** `mapper`: `list(concat(map(map_line, sequence)))`. */
  function MapAll(lines: seq<string>): seq<Pair> {
    Concat(Map(MapLine, lines))
  }

  /** Sum of the per-line pair counts. */
  function TotalPairs(lines: seq<string>): nat {
    if lines == [] then 0 else |MapLine(lines[0])| + TotalPairs(lines[1..])
  }

  // ---------------------------------------------------------------------
  // Lemmas

  /** When no word is empty the filter drops nothing: one pair per word. */
  lemma {:induction false} EmitAll(words: seq<string>)
    requires forall i :: 0 <= i < |words| ==> words[i] != []
    ensures |Emit(words)| == |words|
    ensures forall i :: 0 <= i < |words| ==> Emit(words)[i] == (words[i], 1)
  {
    if words != [] {
      EmitAll(words[1..]);
      var r := Emit(words);
      assert r == [(words[0], 1)] + Emit(words[1..]);
      forall i | 1 <= i < |words| ensures r[i] == (words[i], 1) {
        assert r[i] == Emit(words[1..])[i - 1];
      }
    }
  }

  /** The `if w` filter drops an empty word wherever it stands and changes
      nothing else; with EmitAll this fixes `Emit` on every word list. */
  lemma {:induction false} EmitDropsEmpty(a: seq<string>, b: seq<string>)
    ensures Emit(a + [[]] + b) == Emit(a + b)
  {
    if a == [] {
      assert a + [[]] + b == [[]] + b;
      assert ([[]] + b)[1..] == b;
      assert a + b == b;
    } else {
      var w := a + [[]] + b;
      var v := a + b;
      assert w[0] == a[0] && v[0] == a[0];
      assert w[1..] == a[1..] + [[]] + b;
      assert v[1..] == a[1..] + b;
      EmitDropsEmpty(a[1..], b);
    }
  }

  /** `map_line` emits one `(word, 1)` pair per token of the line, in order:
      every key is a non-empty word of `[a-záéíóúüñ0-9]` and every value is 1. */
  lemma MapLineSpec(x: string)
    ensures |MapLine(x)| == |Tokens(x)|
    ensures forall i :: 0 <= i < |Tokens(x)| ==> MapLine(x)[i] == (Tokens(x)[i], 1)
    ensures forall i :: 0 <= i < |MapLine(x)| ==> UnitPair(MapLine(x)[i])
  {
    TokensAreWords(x);
    EmitAll(Tokens(x));
  }

  /** An empty line, or a line of punctuation and whitespace, emits nothing. */
  lemma MapLineOfPunctuation(x: string)
    requires forall i :: 0 <= i < |x| ==> !IsWordChar(Lower(x[i]))
    ensures MapLine(x) == []
  {
    TokensOfPunctuation(x);
  }

  /** Element `i` of `map(f, xs)` is `f` applied to element `i` of `xs`. */
  lemma {:induction false} MapAt<A, B>(f: A -> B, xs: seq<A>)
    ensures forall i :: 0 <= i < |xs| ==> Map(f, xs)[i] == f(xs[i])
  {
    if xs != [] {
      MapAt(f, xs[1..]);
      forall i | 1 <= i < |xs| ensures Map(f, xs)[i] == f(xs[i]) {
        assert Map(f, xs)[i] == Map(f, xs[1..])[i - 1];
      }
    }
  }

  /** `map` distributes over concatenation. */
  lemma {:induction false} MapAppend<A, B>(f: A -> B, a: seq<A>, b: seq<A>)
    ensures Map(f, a + b) == Map(f, a) + Map(f, b)
  {
    if a == [] {
      assert a + b == b;
    } else {
      assert (a + b)[0] == a[0] && (a + b)[1..] == a[1..] + b;
      MapAppend(f, a[1..], b);
    }
  }

  /** The mapper's output starts with the first line's pairs. */
  lemma MapAllCons(lines: seq<string>)
    requires lines != []
    ensures MapAll(lines) == MapLine(lines[0]) + MapAll(lines[1..])
  {
  }

  /** Mapping a concatenation of line lists concatenates the mapped pairs:
      each line is mapped on its own. */
  lemma MapAllAppend(a: seq<string>, b: seq<string>)
    ensures MapAll(a + b) == MapAll(a) + MapAll(b)
  {
    MapAppend(MapLine, a, b);
    ConcatAppend(Map(MapLine, a), Map(MapLine, b));
  }

  /** The mapper's output is as long as the per-line outputs together. */
  lemma {:induction false} MapAllLength(lines: seq<string>)
    ensures |MapAll(lines)| == TotalPairs(lines)
  {
    if lines != [] {
      MapAllCons(lines);
      MapAllLength(lines[1..]);
    }
  }

  /** Unit pairs stay unit pairs under concatenation. */
  lemma UnitPairsAppend(a: seq<Pair>, b: seq<Pair>)
    requires forall i :: 0 <= i < |a| ==> UnitPair(a[i])
    requires forall i :: 0 <= i < |b| ==> UnitPair(b[i])
    ensures forall i :: 0 <= i < |a + b| ==> UnitPair((a + b)[i])
  {
    forall i | 0 <= i < |a + b| ensures UnitPair((a + b)[i]) {
      if i >= |a| {
        assert (a + b)[i] == b[i - |a|];
      }
    }
  }

  /** Every pair the mapper emits is `(word, 1)` for a non-empty word. */
  lemma {:induction false} MapAllPairs(lines: seq<string>)
    ensures forall i :: 0 <= i < |MapAll(lines)| ==> UnitPair(MapAll(lines)[i])
  {
    if lines != [] {
      MapAllCons(lines);
      MapLineSpec(lines[0]);
      MapAllPairs(lines[1..]);
      UnitPairsAppend(MapLine(lines[0]), MapAll(lines[1..]));
    }
  }
}
