/** Worked scenarios: the pipeline on concrete inputs. Each literal is bound
    to a parameter so that the proof goes through the general lemmas rather
    than unfolding every definition on the literal. */
module Scenarios {
  import opened Tokenizer
  import opened Mapper
  import opened Grouper
  import opened Reducer
  import opened Output
  import opened Job

  /** Three words separated by the same run of whitespace split into those
      three words. */
  lemma SplitThree(a: string, b: string, c: string, sp: string)
    requires IsWord(a) && IsWord(b) && IsWord(c)
    requires |sp| > 0 && forall i :: 0 <= i < |sp| ==> IsSpace(sp[i])
    ensures Split(a + sp + (b + sp + c)) == [a, b, c]
  {
    SplitWordThenSpaces(b, sp, c);
    SplitOfWord(c);
    SplitWordThenSpaces(a, sp, b + sp + c);
    ListOfThree(a, b, c);
  }

  /** Three singletons joined are the list of three. */
  lemma ListOfThree<T>(a: T, b: T, c: T)
    ensures [a] + ([b] + [c]) == [a, b, c]
  {
  }

  /** A line without surrounding whitespace is left alone by `strip`. */
  lemma StripExample(x: string)
    requires x == "Hello, World! 123"
    ensures Strip(x) == x
  {
    assert x[0] == 'H' && x[|x| - 1] == '3';
    StripTrimmed(x);
  }

  /** `lower` turns the capitals of the sample line into small letters. */
  lemma LowerExample(x: string)
    requires x == "Hello, World! 123"
    ensures LowerAll(x) == "hello, world! 123"
  {
  }

  /** The comma and the exclamation mark become spaces; letters, digits and
      spaces stay. */
  lemma ScrubExample(l: string)
    requires l == "hello, world! 123"
    ensures Scrub(l) == "hello  world  123"
  {
  }

  /** `preprocess_line("Hello, World! 123")` is `"hello  world  123"`. */
  lemma PreprocessExample(x: string)
    requires x == "Hello, World! 123"
    ensures Preprocess(x) == "hello  world  123"
  {
    StripExample(x);
    LowerExample(x);
    ScrubExample(LowerAll(x));
  }

  /** `split` drops the double spaces: no empty word appears. */
  lemma SplitExample(p: string)
    requires p == "hello  world  123"
    ensures Split(p) == ["hello", "world", "123"]
  {
    var sp := "  ";
    assert IsWord("hello") && IsWord("world") && IsWord("123");
    assert IsSpace(sp[0]) && IsSpace(sp[1]);
    assert p == "hello" + sp + ("world" + sp + "123");
    SplitThree("hello", "world", "123", sp);
  }

  /** The sample line yields the tokens `hello`, `world` and `123`. */
  lemma TokensExample(x: string)
    requires x == "Hello, World! 123"
    ensures Tokens(x) == ["hello", "world", "123"]
  {
    PreprocessExample(x);
    SplitExample(Preprocess(x));
  }

  /** `preprocess_line("cat dog")` changes nothing. */
  lemma CatDogPreprocess(x: string)
    requires x == "cat dog"
    ensures Preprocess(x) == x
  {
    assert x[0] == 'c' && x[|x| - 1] == 'g';
    PreprocessFixesWordText(x);
  }

  /** `"cat dog".split()` is `["cat", "dog"]`. */
  lemma CatDogSplit(x: string)
    requires x == "cat dog"
    ensures Split(x) == ["cat", "dog"]
  {
    assert IsWord("cat") && IsWord("dog");
    assert x == "cat" + [' '] + "dog";
    SplitTwo("cat", "dog");
  }

  /** Two words separated by one space split into those two words. */
  lemma SplitTwo(a: string, b: string)
    requires IsWord(a) && IsWord(b)
    ensures Split(a + [' '] + b) == [a, b]
  {
    assert Split(b) == [b] by {
      SplitOfWord(b);
    }
    assert Split(a + [' '] + b) == [a] + Split(b) by {
      SplitWordThenSpace(a, ' ', b);
    }
  }

  /** The line `cat dog` holds the tokens `cat` and `dog`. */
  lemma CatDogTokens(x: string)
    requires x == "cat dog"
    ensures Tokens(x) == ["cat", "dog"]
  {
    CatDogPreprocess(x);
    CatDogSplit(x);
  }

  /** `map_line("cat dog")` is `[("cat", 1), ("dog", 1)]`. */
  lemma TwoWordLine(x: string)
    requires x == "cat dog"
    ensures MapLine(x) == [("cat", 1), ("dog", 1)]
  {
    CatDogTokens(x);
    MapLineSpec(x);
  }

  /** `map_line("cat")` is `[("cat", 1)]`. */
  lemma OneWordLine(x: string)
    requires x == "cat"
    ensures MapLine(x) == [("cat", 1)]
  {
    assert IsWord(x);
    PreprocessFixesWordText(x);
    SplitOfWord(x);
    MapLineSpec(x);
  }

  /** The `if w` filter on a word list holding an empty word keeps the other word. */
  lemma EmitFilterExample(w: string)
    requires w == "a"
    ensures Emit([[], w]) == [(w, 1)]
  {
    EmitDropsEmpty([], [w]);
    assert [] + [[]] + [w] == [[], w];
    assert [] + [w] == [w];
    EmitAll([w]);
  }

  /** `mapper` keeps the pairs of both lines, in line order. */
  lemma MapAllExample(a: string, b: string)
    requires a == "cat dog" && b == "cat"
    ensures MapAll([a, b]) == [("cat", 1), ("dog", 1), ("cat", 1)]
  {
    MapAllTwo(a, b);
    TwoWordLine(a);
    OneWordLine(b);
  }

  /** `mapper` on two lines is the first line's pairs, then the second's. */
  lemma MapAllTwo(a: string, b: string)
    ensures MapAll([a, b]) == MapLine(a) + MapLine(b)
  {
    MapAllCons([a, b]);
    assert [a, b][1..] == [b];
    MapAllCons([b]);
    assert [b][1..] == [];
  }

  /** Grouping the three pairs: `cat` first (seen first), twice; `dog` once. */
  lemma GroupExample(pairs: seq<Pair>)
    requires pairs == [("cat", 1), ("dog", 1), ("cat", 1)]
    ensures DistinctKeys(pairs) == ["cat", "dog"]
    ensures Count(pairs, "cat") == 2 && Count(pairs, "dog") == 1
  {
    var p1, p2 := pairs[..1], pairs[..2];
    assert p1[..0] == [];
    assert DistinctKeys(p1) == ["cat"];
    assert Count(p1, "cat") == 1 && Count(p1, "dog") == 0;
    assert p2[..1] == p1;
    assert DistinctKeys(p2) == ["cat", "dog"];
    assert Count(p2, "cat") == 1 && Count(p2, "dog") == 1;
    assert pairs[..2] == p2;
  }

  /** The reducer's output for the three pairs. */
  lemma ReduceExample(pairs: seq<Pair>)
    requires pairs == [("cat", 1), ("dog", 1), ("cat", 1)]
    ensures Reduce(GroupBy(pairs)) == [("cat", 2), ("dog", 1)]
  {
    GroupExample(pairs);
    ReduceCounts(pairs);
  }

  /** A list already in count order sorts to itself. */
  lemma SortExample(r: seq<Aggregate>)
    requires r == [("cat", 2), ("dog", 1)]
    ensures SortByCountDesc(r) == r
  {
    assert r[1..][1..] == [];
  }

  /** End to end: the lines `cat dog` and `cat` give the report lines
      `cat\t2` and then `dog\t1`. */
  lemma WordCountExample(lines: seq<string>)
    requires lines == ["cat dog", "cat"]
    ensures WordCount(lines) == [("cat", 2), ("dog", 1)]
  {
    assert lines == [lines[0], lines[1]];
    MapAllExample(lines[0], lines[1]);
    ReduceExample(MapAll(lines));
    SortExample(Reduce(GroupBy(MapAll(lines))));
  }

  /** An empty input gives an empty report. */
  lemma WordCountEmpty()
    ensures WordCount([]) == []
  {
  }
}
