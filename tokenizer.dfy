/** The tokenizer: `preprocess_line` (strip, lowercase, replace every character
    outside the kept class by a space) and the whitespace split that
    `map_line` applies to its result. */
module Tokenizer {

  /** Whitespace as Python's `str.isspace` sees it; `str.strip()`,
      `str.split()` and the regex class `\s` all use this same set. */
  predicate IsSpace(c: char) {
    var n := c as int;
    (0x09 <= n <= 0x0D) || (0x1C <= n <= 0x20) || n == 0x85 || n == 0xA0 || n == 0x1680
    || (0x2000 <= n <= 0x200A) || n == 0x2028 || n == 0x2029 || n == 0x202F || n == 0x205F
    || n == 0x3000
  }

  /** The accented letters the kept class names besides `a-z`: á é í ó ú ü ñ. */
  predicate IsSpanishLetter(c: char) {
    var n := c as int;
    n == 0xE1 || n == 0xE9 || n == 0xED || n == 0xF3 || n == 0xFA || n == 0xFC || n == 0xF1
  }

  /** The capitals of the letters above: Á É Í Ó Ú Ü Ñ. */
  predicate IsSpanishCapital(c: char) {
    var n := c as int;
    n == 0xC1 || n == 0xC9 || n == 0xCD || n == 0xD3 || n == 0xDA || n == 0xDC || n == 0xD1
  }

  /** A character that can be part of a word: `[a-záéíóúüñ0-9]`. */
  predicate IsWordChar(c: char) {
    var n := c as int;
    (0x61 <= n <= 0x7A) || IsSpanishLetter(c) || (0x30 <= n <= 0x39)
  }

  /** The regex class `[a-záéíóúüñ0-9\s]`: everything else becomes a space. */
  predicate Kept(c: char) {
    IsWordChar(c) || IsSpace(c)
  }

  /** No character is both a word character and whitespace. */
  lemma WordCharNotSpace(c: char)
    ensures IsWordChar(c) ==> !IsSpace(c)
  {
  }

  /** `str.lower` on one character: ASCII capitals and the Latin-1 capitals
      (U+00C0..U+00DE, except the multiplication sign U+00D7) move down by 0x20;
      every other character is unchanged. */
  function Lower(c: char): (r: char)
    ensures IsSpace(r) <==> IsSpace(c)
    ensures IsWordChar(c) ==> r == c
    ensures ('A' <= c <= 'Z' || IsSpanishCapital(c)) ==> r as int == c as int + 0x20
    ensures IsWordChar(r) <==> IsWordChar(c) || 'A' <= c <= 'Z' || IsSpanishCapital(c)
    ensures !('A' <= r <= 'Z') && !IsSpanishCapital(r)
  {
    var n := c as int;
    if (0x41 <= n <= 0x5A) || (0xC0 <= n <= 0xDE && n != 0xD7) then (n + 0x20) as char
    else c
  }

  /** Lowering is idempotent: a lowered character lowers to itself. */
  lemma LowerIdempotent(c: char)
    ensures Lower(Lower(c)) == Lower(c)
  {
  }

  /** Drops the leading whitespace (the left half of `str.strip()`). */
  function TrimStart(s: string): (r: string)
    ensures |r| <= |s| && r == s[|s| - |r|..]
    ensures r == [] || !IsSpace(r[0])
  {
    if s == [] || !IsSpace(s[0]) then s else TrimStart(s[1..])
  }

  /** Drops the trailing whitespace (the right half of `str.strip()`). */
  function TrimEnd(s: string): (r: string)
    ensures |r| <= |s| && r == s[..|r|]
    ensures r == [] || !IsSpace(r[|r| - 1])
  {
    if s == [] || !IsSpace(s[|s| - 1]) then s else TrimEnd(s[..|s| - 1])
  }

  /** `str.strip()` with no argument. */
  function Strip(s: string): string {
    TrimEnd(TrimStart(s))
  }

  /** `str.lower()`, one character at a time. */
  function LowerAll(s: string): (r: string)
    ensures |r| == |s|
  {
    seq(|s|, i requires 0 <= i < |s| => Lower(s[i]))
  }

  /** `re.sub(r"[^a-záéíóúüñ0-9\s]", " ", s)`: each character outside the class
      is replaced by exactly one space. */
  function Scrub(s: string): (r: string)
    ensures |r| == |s|
  {
    seq(|s|, i requires 0 <= i < |s| => if Kept(s[i]) then s[i] else ' ')
  }

  /** `preprocess_line`. */
  function Preprocess(x: string): (r: string)
    ensures |r| == |Strip(x)|
  {
    Scrub(LowerAll(Strip(x)))
  }

  /** Text made of word characters and whitespace only, as `preprocess_line`
      leaves it. */
  predicate WordText(s: string) {
    forall j :: 0 <= j < |s| ==> IsWordChar(s[j]) || IsSpace(s[j])
  }

  /** A string of word characters only. */
  predicate AllWordChars(w: string) {
    forall j :: 0 <= j < |w| ==> IsWordChar(w[j])
  }

  /** A token: non-empty and free of whitespace. */
  predicate IsWord(w: string) {
    |w| > 0 && forall i :: 0 <= i < |w| ==> !IsSpace(w[i])
  }

  /** The longest prefix of `s` that holds no whitespace. */
  function WordPrefix(s: string): (r: string)
    ensures |r| <= |s| && r == s[..|r|]
    ensures |r| == |s| || IsSpace(s[|r|])
  {
    if s == [] || IsSpace(s[0]) then [] else [s[0]] + WordPrefix(s[1..])
  }

  /** `str.split()` with no argument: runs of whitespace separate words, and
      leading or trailing whitespace gives no empty word. */
  function Split(s: string): seq<string>
    decreases |s|
  {
    var t := TrimStart(s);
    if t == [] then []
    else
      var w := WordPrefix(t);
      assert |w| > 0;
      [w] + Split(t[|w|..])
  }

  /** The words `map_line` sees for one raw line. */
  function Tokens(x: string): seq<string> {
    Split(Preprocess(x))
  }

  /** Words joined with single spaces (the inverse of `Split` on words). */
  function JoinWords(ws: seq<string>): string {
    if ws == [] then []
    else if |ws| == 1 then ws[0]
    else ws[0] + [' '] + JoinWords(ws[1..])
  }

  /** The non-whitespace characters of `s`, in order. */
  function RemoveSpaces(s: string): string {
    if s == [] then []
    else (if IsSpace(s[0]) then [] else [s[0]]) + RemoveSpaces(s[1..])
  }

  /** `toolz.concat`: the sequences of a sequence, run together in order. */
  function Concat<T>(xss: seq<seq<T>>): seq<T> {
    if xss == [] then [] else xss[0] + Concat(xss[1..])
  }

  // ---------------------------------------------------------------------
  // Lemmas

  /** `concat` distributes over concatenation. */
  lemma {:induction false} ConcatAppend<T>(a: seq<seq<T>>, b: seq<seq<T>>)
    ensures Concat(a + b) == Concat(a) + Concat(b)
  {
    if a == [] {
      assert a + b == b;
    } else {
      assert (a + b)[0] == a[0];
      assert (a + b)[1..] == a[1..] + b;
      ConcatAppend(a[1..], b);
    }
  }

  /** `TrimStart` removes whitespace only. */
  lemma {:induction false} TrimStartDropsSpaces(s: string)
    ensures forall i :: 0 <= i < |s| - |TrimStart(s)| ==> IsSpace(s[i])
  {
    if s != [] && IsSpace(s[0]) {
      TrimStartDropsSpaces(s[1..]);
      forall i | 1 <= i < |s| - |TrimStart(s)| ensures IsSpace(s[i]) {
        assert s[i] == s[1..][i - 1];
      }
    }
  }

  /** `TrimEnd` removes whitespace only. */
  lemma {:induction false} TrimEndDropsSpaces(s: string)
    ensures forall i :: |TrimEnd(s)| <= i < |s| ==> IsSpace(s[i])
  {
    if s != [] && IsSpace(s[|s| - 1]) {
      TrimEndDropsSpaces(s[..|s| - 1]);
    }
  }

  /** The word prefix holds no whitespace. */
  lemma {:induction false} WordPrefixNoSpace(s: string)
    ensures forall i :: 0 <= i < |WordPrefix(s)| ==> !IsSpace(WordPrefix(s)[i])
  {
    if s != [] && !IsSpace(s[0]) {
      WordPrefixNoSpace(s[1..]);
      var r := WordPrefix(s);
      forall i | 1 <= i < |r| ensures !IsSpace(r[i]) {
        assert r[i] == WordPrefix(s[1..])[i - 1];
      }
    }
  }

  lemma {:induction false} RemoveSpacesAppend(a: string, b: string)
    ensures RemoveSpaces(a + b) == RemoveSpaces(a) + RemoveSpaces(b)
  {
    if a != [] {
      assert (a + b)[1..] == a[1..] + b;
      RemoveSpacesAppend(a[1..], b);
    } else {
      assert a + b == b;
    }
  }

  lemma {:induction false} RemoveSpacesOfSpaces(s: string)
    requires forall i :: 0 <= i < |s| ==> IsSpace(s[i])
    ensures RemoveSpaces(s) == []
  {
    if s != [] {
      RemoveSpacesOfSpaces(s[1..]);
    }
  }

  lemma {:induction false} RemoveSpacesOfWord(w: string)
    requires forall i :: 0 <= i < |w| ==> !IsSpace(w[i])
    ensures RemoveSpaces(w) == w
  {
    if w != [] {
      RemoveSpacesOfWord(w[1..]);
    }
  }

  /** Splitting loses no character and adds none: the words, run together,
      are exactly the non-whitespace characters of the input, in order. */
  lemma {:induction false} SplitKeepsCharacters(s: string)
    ensures Concat(Split(s)) == RemoveSpaces(s)
    decreases |s|
  {
    var t := TrimStart(s);
    assert RemoveSpaces(s) == RemoveSpaces(t) by {
      var lead := s[..|s| - |t|];
      SplitSeqAt(s, |s| - |t|);
      TrimStartDropsSpaces(s);
      RemoveSpacesAppend(lead, t);
      RemoveSpacesOfSpaces(lead);
    }
    if t != [] {
      var w := WordPrefix(t);
      var tail := t[|w|..];
      assert RemoveSpaces(t) == w + RemoveSpaces(tail) by {
        SplitSeqAt(t, |w|);
        WordPrefixNoSpace(t);
        RemoveSpacesAppend(w, tail);
        RemoveSpacesOfWord(w);
      }
      SplitKeepsCharacters(tail);
      ConcatCons(w, Split(tail));
    }
  }

  /** A sequence is its prefix followed by its suffix. */
  lemma SplitSeqAt<T>(s: seq<T>, k: nat)
    requires k <= |s|
    ensures s == s[..k] + s[k..]
  {
  }

  /** Flattening a list that starts with `x` starts with `x`. */
  lemma ConcatCons<T>(x: seq<T>, xs: seq<seq<T>>)
    ensures Concat([x] + xs) == x + Concat(xs)
  {
    assert ([x] + xs)[1..] == xs;
  }

  /** Every word `Split` yields is non-empty and holds no whitespace. */
  lemma {:induction false} SplitWords(s: string)
    ensures forall i :: 0 <= i < |Split(s)| ==> IsWord(Split(s)[i])
    decreases |s|
  {
    var t := TrimStart(s);
    if t != [] {
      var w := WordPrefix(t);
      WordPrefixNoSpace(t);
      SplitWords(t[|w|..]);
      WordsCons(w, Split(t[|w|..]));
    }
  }

  lemma WordsCons(w: string, ws: seq<string>)
    requires IsWord(w)
    requires forall i :: 0 <= i < |ws| ==> IsWord(ws[i])
    ensures forall i :: 0 <= i < |[w] + ws| ==> IsWord(([w] + ws)[i])
  {
    forall i | 0 <= i < |[w] + ws| ensures IsWord(([w] + ws)[i]) {
      if i > 0 {
        assert ([w] + ws)[i] == ws[i - 1];
      }
    }
  }

  /** A string of whitespace only (the empty string included) has no words. */
  lemma SplitOfSpaces(s: string)
    requires forall i :: 0 <= i < |s| ==> IsSpace(s[i])
    ensures Split(s) == []
  {
    assert TrimStart(s) == [];
  }

  /** Leading whitespace does not change the split. */
  lemma SplitSkipsSpace(c: char, s: string)
    requires IsSpace(c)
    ensures Split([c] + s) == Split(s)
  {
    assert ([c] + s)[1..] == s;
    assert TrimStart([c] + s) == TrimStart(s);
  }

  /** `Split` depends only on the text after the leading whitespace. */
  lemma SplitSameTrim(x: string, y: string)
    requires TrimStart(x) == TrimStart(y)
    ensures Split(x) == Split(y)
  {
  }

  /** Text that starts with a non-space splits into its first word followed by
      the split of what comes after that word. */
  lemma SplitFirstWord(s: string)
    requires s != [] && !IsSpace(s[0])
    ensures Split(s) == [WordPrefix(s)] + Split(s[|WordPrefix(s)|..])
  {
    assert TrimStart(s) == s;
  }

  /** `strip` removes a whole run of leading whitespace. */
  lemma {:induction false} TrimStartSkipsSpaces(sp: string, s: string)
    requires forall i :: 0 <= i < |sp| ==> IsSpace(sp[i])
    ensures TrimStart(sp + s) == TrimStart(s)
  {
    if sp != [] {
      assert (sp + s)[0] == sp[0];
      assert (sp + s)[1..] == sp[1..] + s;
      TrimStartSkipsSpaces(sp[1..], s);
    } else {
      assert sp + s == s;
    }
  }

  /** A run of leading whitespace does not change the split. */
  lemma SplitSkipsSpaces(sp: string, s: string)
    requires forall i :: 0 <= i < |sp| ==> IsSpace(sp[i])
    ensures Split(sp + s) == Split(s)
  {
    TrimStartSkipsSpaces(sp, s);
    SplitSameTrim(sp + s, s);
  }

  /** A word followed by a whitespace character (space, tab, newline, no-break
      space, ...) and more text splits off as the first word. */
  lemma SplitWordThenSpace(w: string, c: char, rest: string)
    requires IsWord(w) && IsSpace(c)
    ensures Split(w + [c] + rest) == [w] + Split(rest)
  {
    SplitWordThenSpaces(w, [c], rest);
  }

  /** A word followed by a run of whitespace and more text splits off as the
      first word: the run, however long, separates exactly two words. */
  lemma SplitWordThenSpaces(w: string, sp: string, rest: string)
    requires IsWord(w) && |sp| > 0
    requires forall i :: 0 <= i < |sp| ==> IsSpace(sp[i])
    ensures Split(w + sp + rest) == [w] + Split(rest)
  {
    var s := w + sp + rest;
    SeparatorShape(w, sp, rest);
    WordPrefixOfWordThenSpace(w, sp[0], sp[1..] + rest);
    SplitFirstWord(s);
    SplitSkipsSpaces(sp, rest);
  }

  /** How a word, a separator and the rest line up in their concatenation. */
  lemma SeparatorShape<T>(w: seq<T>, sp: seq<T>, rest: seq<T>)
    requires |w| > 0 && |sp| > 0
    ensures w + sp + rest == w + [sp[0]] + (sp[1..] + rest)
    ensures (w + sp + rest)[0] == w[0]
    ensures (w + sp + rest)[|w|..] == sp + rest
  {
  }

  /** The first word of a word followed by whitespace is that word. */
  lemma {:induction false} WordPrefixOfWordThenSpace(w: string, c: char, rest: string)
    requires forall i :: 0 <= i < |w| ==> !IsSpace(w[i])
    requires IsSpace(c)
    ensures WordPrefix(w + [c] + rest) == w
  {
    if w != [] {
      assert (w + [c] + rest)[1..] == w[1..] + [c] + rest;
      WordPrefixOfWordThenSpace(w[1..], c, rest);
    }
  }

  /** A single word splits to itself. */
  lemma SplitOfWord(w: string)
    requires IsWord(w)
    ensures Split(w) == [w]
  {
    assert TrimStart(w) == w;
    assert WordPrefix(w) == w;
    assert w[|w|..] == [];
    assert Split([]) == [];
  }

  /** Round trip: splitting words that were joined by single spaces gives the
      words back. */
  lemma {:induction false} SplitJoinWords(ws: seq<string>)
    requires forall i :: 0 <= i < |ws| ==> IsWord(ws[i])
    ensures Split(JoinWords(ws)) == ws
  {
    if ws == [] {
      assert Split([]) == [];
    } else if |ws| == 1 {
      SplitOfWord(ws[0]);
    } else {
      SplitJoinWords(ws[1..]);
      SplitWordThenSpace(ws[0], ' ', JoinWords(ws[1..]));
    }
  }

  /** Characters of a joined word list that are not separators come from the words. */
  lemma {:induction false} JoinWordsChars(ws: seq<string>)
    requires forall i :: 0 <= i < |ws| ==> IsWord(ws[i])
    requires forall i :: 0 <= i < |ws| ==> AllWordChars(ws[i])
    ensures forall j :: 0 <= j < |JoinWords(ws)| ==>
      IsWordChar(JoinWords(ws)[j]) || JoinWords(ws)[j] == ' '
    ensures JoinWords(ws) == [] || (!IsSpace(JoinWords(ws)[0]) && !IsSpace(JoinWords(ws)[|JoinWords(ws)| - 1]))
  {
    if |ws| > 1 {
      JoinWordsChars(ws[1..]);
      var s := JoinWords(ws);
      var rest := JoinWords(ws[1..]);
      assert s == ws[0] + [' '] + rest;
      forall j | 0 <= j < |s| ensures IsWordChar(s[j]) || s[j] == ' ' {
        if j < |ws[0]| {
          assert s[j] == ws[0][j];
        } else if j > |ws[0]| {
          assert s[j] == rest[j - |ws[0]| - 1];
        }
      }
    }
  }

  /** A word character is left alone by the tokenizer's character steps. */
  lemma PreprocessFixesWordText(s: string)
    requires forall j :: 0 <= j < |s| ==> IsWordChar(s[j]) || s[j] == ' '
    requires s == [] || (!IsSpace(s[0]) && !IsSpace(s[|s| - 1]))
    ensures Preprocess(s) == s
  {
    StripTrimmed(s);
    var l := LowerAll(s);
    forall j | 0 <= j < |s| ensures l[j] == s[j] && Kept(l[j]) {
      assert l[j] == Lower(s[j]);
    }
    assert l == s;
    assert Scrub(l) == l;
  }

  /** A string with no whitespace at either end is left alone by `strip`. */
  lemma StripTrimmed(s: string)
    requires s == [] || (!IsSpace(s[0]) && !IsSpace(s[|s| - 1]))
    ensures Strip(s) == s
  {
    assert TrimStart(s) == s;
    assert TrimEnd(s) == s;
  }

  /** Every word split out of a string over word characters and whitespace is
      built from word characters only. */
  lemma {:induction false} SplitWordChars(s: string)
    requires WordText(s)
    ensures forall i :: 0 <= i < |Split(s)| ==> AllWordChars(Split(s)[i])
    decreases |s|
  {
    var t := TrimStart(s);
    if t != [] {
      WordTextSuffix(s, |s| - |t|);
      var w := WordPrefix(t);
      WordTextSuffix(t, |w|);
      WordPrefixWordChars(t);
      SplitWordChars(t[|w|..]);
      AllWordCharsCons(w, Split(t[|w|..]));
    }
  }

  /** A suffix of text over word characters and whitespace is such text too. */
  lemma WordTextSuffix(s: string, k: nat)
    requires WordText(s) && k <= |s|
    ensures WordText(s[k..])
  {
    forall j | 0 <= j < |s| - k ensures IsWordChar(s[k..][j]) || IsSpace(s[k..][j]) {
      assert s[k..][j] == s[k + j];
    }
  }

  /** In text over word characters and whitespace, the word prefix is made of
      word characters. */
  lemma WordPrefixWordChars(t: string)
    requires WordText(t)
    ensures AllWordChars(WordPrefix(t))
  {
    var w := WordPrefix(t);
    WordPrefixNoSpace(t);
    forall j | 0 <= j < |w| ensures IsWordChar(w[j]) {
      assert w[j] == t[j];
      WordCharNotSpace(t[j]);
    }
  }

  lemma AllWordCharsCons(w: string, ws: seq<string>)
    requires AllWordChars(w)
    requires forall i :: 0 <= i < |ws| ==> AllWordChars(ws[i])
    ensures forall i :: 0 <= i < |[w] + ws| ==> AllWordChars(([w] + ws)[i])
  {
    forall i | 0 <= i < |[w] + ws| ensures AllWordChars(([w] + ws)[i]) {
      if i > 0 {
        assert ([w] + ws)[i] == ws[i - 1];
      }
    }
  }

  /** Per character of `preprocess_line`'s result: it lies in the kept class,
      it is whitespace exactly when the stripped, lowercased input character is
      not a word character, and otherwise it is that character. */
  lemma PreprocessAt(x: string, i: nat)
    requires i < |Preprocess(x)|
    ensures Preprocess(x)[i] == (if Kept(Lower(Strip(x)[i])) then Lower(Strip(x)[i]) else ' ')
    ensures Kept(Preprocess(x)[i])
    ensures IsSpace(Preprocess(x)[i]) <==> !IsWordChar(Lower(Strip(x)[i]))
    ensures IsWordChar(Lower(Strip(x)[i])) ==> Preprocess(x)[i] == Lower(Strip(x)[i])
  {
    var c := Lower(Strip(x)[i]);
    assert LowerAll(Strip(x))[i] == c;
    WordCharNotSpace(c);
  }

  /** Every character of `preprocess_line`'s result is a letter of
      `a-z`/`áéíóúüñ`, a digit or whitespace. */
  lemma PreprocessKept(x: string)
    ensures forall i :: 0 <= i < |Preprocess(x)| ==> Kept(Preprocess(x)[i])
  {
    forall i | 0 <= i < |Preprocess(x)| ensures Kept(Preprocess(x)[i]) {
      PreprocessAt(x, i);
    }
  }

  /** The tokens of a line are non-empty words over `[a-záéíóúüñ0-9]`. */
  lemma TokensAreWords(x: string)
    ensures forall i :: 0 <= i < |Tokens(x)| ==> IsWord(Tokens(x)[i])
    ensures forall i :: 0 <= i < |Tokens(x)| ==> AllWordChars(Tokens(x)[i])
  {
    var p := Preprocess(x);
    PreprocessKept(x);
    SplitWords(p);
    SplitWordChars(p);
  }

  /** Tokenizing is idempotent: tokenizing the tokens of a line, joined by single
      spaces, yields the same tokens. */
  lemma TokensIdempotent(x: string)
    ensures Tokens(JoinWords(Tokens(x))) == Tokens(x)
  {
    var ws := Tokens(x);
    TokensAreWords(x);
    JoinWordsChars(ws);
    PreprocessFixesWordText(JoinWords(ws));
    SplitJoinWords(ws);
  }

  /** Every character `str.strip()` keeps comes from its input. */
  lemma StripChars(x: string)
    ensures forall i :: 0 <= i < |Strip(x)| ==> Strip(x)[i] in x
  {
    var t := TrimStart(x);
    var st := Strip(x);
    forall i | 0 <= i < |st| ensures st[i] in x {
      assert st[i] == t[i];
      SuffixMember(x, |x| - |t|, i);
    }
  }

  /** An element of a suffix is an element of the whole sequence. */
  lemma SuffixMember<T>(x: seq<T>, k: nat, j: nat)
    requires k + j < |x|
    ensures x[k..][j] == x[k + j] && x[k + j] in x
  {
  }

  /** A line none of whose characters lowercases to a word character (the empty
      line, a line of punctuation) has no tokens. */
  lemma TokensOfPunctuation(x: string)
    requires forall i :: 0 <= i < |x| ==> !IsWordChar(Lower(x[i]))
    ensures Tokens(x) == []
  {
    var p := Preprocess(x);
    StripChars(x);
    forall i | 0 <= i < |p| ensures IsSpace(p[i]) {
      PreprocessAt(x, i);
    }
    SplitOfSpaces(p);
  }
}
