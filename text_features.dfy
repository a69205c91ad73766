/** Bag-of-words features from `text_features.py`: ASCII tokenisation, a shared
    document-frequency vocabulary, and term-frequency or binary vectors over it. */
module TextFeatures {

  // ---------------------------------------------------------------- tokenize

  /** A character of the token pattern `[A-Za-z0-9']`. */
  predicate IsTokenChar(c: char)
  {
    ('A' <= c <= 'Z') || ('a' <= c <= 'z') || ('0' <= c <= '9') || c == '\''
  }

  /** A character of a lower-cased token: `[a-z0-9']`. */
  predicate IsLowerTokenChar(c: char)
  {
    ('a' <= c <= 'z') || ('0' <= c <= '9') || c == '\''
  }

  /** `str.lower()` on the characters a token can hold (ASCII only). */
  function Lower(c: char): (d: char)
    ensures IsTokenChar(c) ==> IsLowerTokenChar(d)
  {
    if 'A' <= c <= 'Z' then (c as int + 32) as char else c
  }

  predicate AllTokenChars(s: string)
  {
    forall i :: 0 <= i < |s| ==> IsTokenChar(s[i])
  }

  /** `t.lower()` on a token: lower-cases the upper-case letters and leaves every other
      character in place, so a run of token characters becomes a lower-cased token. */
  function LowerAll(s: string): (r: string)
    ensures |r| == |s|
    ensures AllTokenChars(s) ==> forall i :: 0 <= i < |r| ==> IsLowerTokenChar(r[i])
    ensures forall i :: 0 <= i < |s| && !('A' <= s[i] <= 'Z') ==> r[i] == s[i]
    ensures forall i :: 0 <= i < |s| && 'A' <= s[i] <= 'Z' ==> 'a' <= r[i] <= 'z' && r[i] as int == s[i] as int + 32
  {
    seq(|s|, i requires 0 <= i < |s| => Lower(s[i]))
  }

  /** Lower-casing twice is lower-casing once. */
  lemma LowerAllIdempotent(s: string)
    ensures LowerAll(LowerAll(s)) == LowerAll(s)
  {
    var r := LowerAll(s);
    assert forall i :: 0 <= i < |r| ==> !('A' <= r[i] <= 'Z');
  }

  /** What `tokenize` yields: a non-empty string over `[a-z0-9']`. */
  predicate IsToken(t: string)
  {
    |t| > 0 && forall i :: 0 <= i < |t| ==> IsLowerTokenChar(t[i])
  }

  /** The left-to-right scan of `TOKEN_RE.findall`, lower-casing as it goes; `run` holds the
      lower-cased characters of the match in progress. */
  function Scan(s: string, run: string): seq<string>
    decreases |s|
  {
    if s == [] then (if run == [] then [] else [run])
    else if IsTokenChar(s[0]) then Scan(s[1..], run + [Lower(s[0])])
    else if run == [] then Scan(s[1..], [])
    else [run] + Scan(s[1..], [])
  }

  /** `tokenize`: the maximal runs of `[A-Za-z0-9']`, lower-cased, in order. */
  function Tokenize(text: string): seq<string>
  {
    Scan(text, [])
  }

  lemma {:induction false} ScanYieldsTokens(s: string, run: string)
    requires run == [] || IsToken(run)
    ensures forall i :: 0 <= i < |Scan(s, run)| ==> IsToken(Scan(s, run)[i])
  {
    if s != [] {
      if IsTokenChar(s[0]) {
        ScanYieldsTokens(s[1..], run + [Lower(s[0])]);
      } else {
        ScanYieldsTokens(s[1..], []);
      }
    }
  }

  /** Every token is non-empty and made only of `a-z`, `0-9` and `'`. */
  lemma TokenizeYieldsTokens(text: string)
    ensures forall i :: 0 <= i < |Tokenize(text)| ==> IsToken(Tokenize(text)[i])
  {
    ScanYieldsTokens(text, []);
  }

  lemma {:induction false} ScanRun(s: string, run: string)
    requires AllTokenChars(s) && (run != [] || s != [])
    ensures Scan(s, run) == [run + LowerAll(s)]
  {
    if s == [] {
      assert run + LowerAll(s) == run;
    } else {
      TailFacts(s, run);
      ScanRun(s[1..], run + [Lower(s[0])]);
    }
  }

  /** One step of a run: the first character joins the run, lower-cased. */
  lemma TailFacts(s: string, run: string)
    requires s != [] && AllTokenChars(s)
    ensures AllTokenChars(s[1..])
    ensures Scan(s, run) == Scan(s[1..], run + [Lower(s[0])])
    ensures run + [Lower(s[0])] + LowerAll(s[1..]) == run + LowerAll(s)
  {
    assert LowerAll(s) == [Lower(s[0])] + LowerAll(s[1..]);
  }

  /** A non-empty run of token characters is exactly one token, its lower-cased self. */
  lemma TokenizeRun(s: string)
    requires s != [] && AllTokenChars(s)
    ensures Tokenize(s) == [LowerAll(s)]
  {
    ScanRun(s, []);
    assert [] + LowerAll(s) == LowerAll(s);
  }

  lemma {:induction false} ScanSeparator(s1: string, c: char, s2: string, run: string)
    requires !IsTokenChar(c)
    ensures Scan(s1 + [c] + s2, run) == Scan(s1, run) + Scan(s2, [])
  {
    if s1 == [] {
      assert s1 + [c] + s2 == [c] + s2;
      assert ([c] + s2)[1..] == s2;
    } else {
      assert (s1 + [c] + s2)[0] == s1[0];
      assert (s1 + [c] + s2)[1..] == s1[1..] + [c] + s2;
      if IsTokenChar(s1[0]) {
        ScanSeparator(s1[1..], c, s2, run + [Lower(s1[0])]);
      } else {
        ScanSeparator(s1[1..], c, s2, []);
      }
    }
  }

  /** A character outside `[A-Za-z0-9']` only separates: the tokens on its two sides are
      the tokens of the two sides, in order, and the character itself is dropped. */
  lemma TokenizeSeparator(s1: string, c: char, s2: string)
    requires !IsTokenChar(c)
    ensures Tokenize(s1 + [c] + s2) == Tokenize(s1) + Tokenize(s2)
  {
    ScanSeparator(s1, c, s2, []);
  }

  lemma {:induction false} ScanNoTokenChars(s: string)
    requires forall i :: 0 <= i < |s| ==> !IsTokenChar(s[i])
    ensures Scan(s, []) == []
  {
    if s != [] {
      assert forall i :: 0 <= i < |s[1..]| ==> s[1..][i] == s[i + 1];
      ScanNoTokenChars(s[1..]);
    }
  }

  /** A text without token characters, the empty text among them, has no tokens. */
  lemma TokenizeNoTokenChars(s: string)
    requires forall i :: 0 <= i < |s| ==> !IsTokenChar(s[i])
    ensures Tokenize(s) == []
  {
    ScanNoTokenChars(s);
  }

  // ------------------------------------------------------------ build_vocab

  /** Python's `<` on strings: lexicographic by code point, a proper prefix first. */
  predicate LexLess(x: string, y: string)
    decreases |x|
  {
    if x == [] then y != []
    else if y == [] then false
    else if x[0] != y[0] then x[0] < y[0]
    else LexLess(x[1..], y[1..])
  }

  lemma {:induction false} LexLessIrreflexive(x: string)
    ensures !LexLess(x, x)
  {
    if x != [] {
      LexLessIrreflexive(x[1..]);
    }
  }

  lemma {:induction false} LexLessTransitive(x: string, y: string, z: string)
    requires LexLess(x, y) && LexLess(y, z)
    ensures LexLess(x, z)
  {
    if x != [] && y != [] && z != [] && x[0] == y[0] && y[0] == z[0] {
      LexLessTransitive(x[1..], y[1..], z[1..]);
    }
  }

  lemma {:induction false} LexLessTotal(x: string, y: string)
    requires x != y
    ensures LexLess(x, y) || LexLess(y, x)
  {
    if x != [] && y != [] && x[0] == y[0] {
      assert x == [x[0]] + x[1..] && y == [y[0]] + y[1..];
      LexLessTotal(x[1..], y[1..]);
    }
  }

  lemma {:induction false} LexLessAsymmetric(x: string, y: string)
    requires LexLess(x, y)
    ensures !LexLess(y, x)
  {
    if x != [] && y != [] && x[0] == y[0] {
      LexLessAsymmetric(x[1..], y[1..]);
    }
  }

  /** The order of `sorted(df.items(), key=lambda kv: (-kv[1], kv[0]))`: by frequency
      descending, ties by word ascending. */
  predicate KeyLess(dx: nat, x: string, dy: nat, y: string)
  {
    dx > dy || (dx == dy && LexLess(x, y))
  }

  /** The sort key orders distinct words strictly and totally. */
  lemma KeyLessStrictTotalOrder(dx: nat, x: string, dy: nat, y: string, dz: nat, z: string)
    ensures !KeyLess(dx, x, dx, x)
    ensures KeyLess(dx, x, dy, y) ==> !KeyLess(dy, y, dx, x)
    ensures KeyLess(dx, x, dy, y) && KeyLess(dy, y, dz, z) ==> KeyLess(dx, x, dz, z)
    ensures x != y ==> KeyLess(dx, x, dy, y) || KeyLess(dy, y, dx, x)
  {
    LexLessIrreflexive(x);
    if LexLess(x, y) { LexLessAsymmetric(x, y); }
    if LexLess(x, y) && LexLess(y, z) { LexLessTransitive(x, y, z); }
    if x != y { LexLessTotal(x, y); }
  }

  /** The words of either token list: the keys of `df`. */
  function Words(a: seq<string>, b: seq<string>): set<string>
  {
    (set w | w in a) + (set w | w in b)
  }

  /** The document frequency of w: in how many of the two token lists it occurs. */
  function Df(a: seq<string>, b: seq<string>, w: string): nat
  {
    (if w in a then 1 else 0) + (if w in b then 1 else 0)
  }

  /** A word of the vocabulary has df 1 or 2, and 2 exactly when it is in both lists. */
  lemma DfRange(a: seq<string>, b: seq<string>, w: string)
    requires w in Words(a, b)
    ensures 1 <= Df(a, b, w) <= 2
    ensures Df(a, b, w) == 2 <==> w in a && w in b
  {
  }

  /** u ranks before w in the vocabulary order over the two lists. */
  predicate RankedBefore(a: seq<string>, b: seq<string>, u: string, w: string)
  {
    KeyLess(Df(a, b, u), u, Df(a, b, w), w)
  }

  predicate NoDuplicates(s: seq<string>)
  {
    forall i, j :: 0 <= i < j < |s| ==> s[i] != s[j]
  }

  function Min(x: nat, y: nat): nat
  {
    if x <= y then x else y
  }

  /** What `build_vocab(a, b, k)` promises: distinct words of the two lists, as many as
      k allows, in strictly descending rank, and no word left out that ranks before one kept. */
  predicate IsVocab(v: seq<string>, a: seq<string>, b: seq<string>, k: nat)
  {
    && NoDuplicates(v)
    && (forall i :: 0 <= i < |v| ==> v[i] in Words(a, b))
    && |v| == Min(k, |Words(a, b)|)
    && (forall i, j :: 0 <= i < j < |v| ==> RankedBefore(a, b, v[i], v[j]))
    && (forall i, w :: 0 <= i < |v| && w in Words(a, b) && w !in v ==> RankedBefore(a, b, v[i], w))
  }

  /** `d.get(k, default)`. */
  function Get(d: map<string, nat>, k: string, default: nat): nat
  {
    if k in d then d[k] else default
  }

  /** The two `df` loops of `build_vocab`, one pass over `set(a)` and one over `set(b)`. */
  method DocumentFrequencies(a: seq<string>, b: seq<string>) returns (df: map<string, nat>)
    ensures df.Keys == Words(a, b)
    ensures forall w :: w in df ==> df[w] == Df(a, b, w)
  {
    df := map[];
    var rest := set w | w in a;
    while rest != {}
      invariant forall w :: w in rest ==> w in a
      invariant forall w :: w in df <==> w in a && w !in rest
      invariant forall w :: w in df ==> df[w] == 1
      decreases |rest|
    {
      var tok :| tok in rest;
      df := df[tok := Get(df, tok, 0) + 1];
      rest := rest - {tok};
    }
    rest := set w | w in b;
    while rest != {}
      invariant forall w :: w in rest ==> w in b
      invariant forall w :: w in df <==> w in a || (w in b && w !in rest)
      invariant forall w :: w in df ==> df[w] == (if w in a then 1 else 0) + (if w in b && w !in rest then 1 else 0)
      decreases |rest|
    {
      var tok :| tok in rest;
      df := df[tok := Get(df, tok, 0) + 1];
      rest := rest - {tok};
    }
  }

  /** s is strictly ascending in the sort key, every word being a key of df. */
  predicate SortedByKey(df: map<string, nat>, s: seq<string>)
  {
    && (forall i :: 0 <= i < |s| ==> s[i] in df)
    && (forall i, j :: 0 <= i < j < |s| ==> s[i] in df && s[j] in df && KeyLess(df[s[i]], s[i], df[s[j]], s[j]))
  }

  lemma InsertKeepsSorted(df: map<string, nat>, s: seq<string>, p: nat, w: string)
    requires SortedByKey(df, s) && w in df && p <= |s|
    requires forall i :: 0 <= i < p ==> KeyLess(df[s[i]], s[i], df[w], w)
    requires forall i :: p <= i < |s| ==> KeyLess(df[w], w, df[s[i]], s[i])
    ensures SortedByKey(df, s[..p] + [w] + s[p..])
  {
    var t := s[..p] + [w] + s[p..];
    assert forall i :: 0 <= i < p ==> t[i] == s[i];
    assert t[p] == w;
    assert forall i :: p < i < |t| ==> t[i] == s[i - 1];
  }

  /** Inserting a new word where the scan for its place stopped keeps the ranking sorted
      and free of duplicates. */
  lemma InsertStep(df: map<string, nat>, s: seq<string>, p: nat, w: string)
    requires SortedByKey(df, s) && NoDuplicates(s) && w in df && w !in s && p <= |s|
    requires forall i :: 0 <= i < p ==> KeyLess(df[s[i]], s[i], df[w], w)
    requires p < |s| ==> !KeyLess(df[s[p]], s[p], df[w], w)
    ensures SortedByKey(df, s[..p] + [w] + s[p..])
    ensures NoDuplicates(s[..p] + [w] + s[p..])
    ensures forall u :: u in s[..p] + [w] + s[p..] <==> u in s || u == w
  {
    forall i | p <= i < |s|
      ensures KeyLess(df[w], w, df[s[i]], s[i])
    {
      KeyLessStrictTotalOrder(df[w], w, df[s[p]], s[p], df[s[i]], s[i]);
      KeyLessStrictTotalOrder(df[s[p]], s[p], df[w], w, df[w], w);
    }
    InsertKeepsSorted(df, s, p, w);
    var t := s[..p] + [w] + s[p..];
    assert forall u :: u in t <==> u in s || u == w by {
      assert s == s[..p] + s[p..];
    }
    forall i, j | 0 <= i < j < |t| ensures t[i] != t[j] {
      KeyLessStrictTotalOrder(df[t[i]], t[i], df[t[j]], t[j], df[t[j]], t[j]);
    }
  }

  /** `sorted(df.items(), key=...)`, keeping the words: an insertion sort over the keys in
      arbitrary order, which is all that Python's dict iteration order amounts to here. */
  method SortByKey(df: map<string, nat>) returns (ranked: seq<string>)
    ensures SortedByKey(df, ranked)
    ensures NoDuplicates(ranked)
    ensures forall w :: w in ranked <==> w in df
  {
    ranked := [];
    var rest := df.Keys;
    while rest != {}
      invariant rest <= df.Keys
      invariant SortedByKey(df, ranked)
      invariant NoDuplicates(ranked)
      invariant forall w :: w in ranked <==> w in df && w !in rest
      decreases |rest|
    {
      var w :| w in rest;
      var p := 0;
      while p < |ranked| && KeyLess(df[ranked[p]], ranked[p], df[w], w)
        invariant 0 <= p <= |ranked|
        invariant forall i :: 0 <= i < p ==> KeyLess(df[ranked[i]], ranked[i], df[w], w)
      {
        p := p + 1;
      }
      InsertStep(df, ranked, p, w);
      var next := ranked[..p] + [w] + ranked[p..];
      ranked := next;
      rest := rest - {w};
    }
  }

  lemma {:induction false} DistinctCardinality(s: seq<string>)
    requires NoDuplicates(s)
    ensures |set w | w in s| == |s|
  {
    if s != [] {
      var init := s[..|s| - 1];
      assert NoDuplicates(init);
      DistinctCardinality(init);
      assert (set w | w in s) == (set w | w in init) + {s[|s| - 1]} by {
        assert s == init + [s[|s| - 1]];
      }
      assert s[|s| - 1] !in init;
    }
  }

  /** `build_vocab`: document frequencies, sort by (-df, word), keep the first max_features. */
  method BuildVocab(a: seq<string>, b: seq<string>, maxFeatures: nat) returns (vocab: seq<string>)
    ensures IsVocab(vocab, a, b, maxFeatures)
  {
    var df := DocumentFrequencies(a, b);
    var ranked := SortByKey(df);
    vocab := ranked[..Min(maxFeatures, |ranked|)];
    assert (set w | w in ranked) == Words(a, b);
    DistinctCardinality(ranked);
    forall i, w | 0 <= i < |vocab| && w in Words(a, b) && w !in vocab
      ensures RankedBefore(a, b, vocab[i], w)
    {
      var j :| 0 <= j < |ranked| && ranked[j] == w;
      assert ranked[i] == vocab[i];
    }
  }

  /** In two vocabularies that agree below position m, the word at m of the first does
      not rank before the word at m of the second. */
  lemma NotRankedBefore(u: seq<string>, ku: nat, v: seq<string>, kv: nat,
                        a: seq<string>, b: seq<string>, m: nat)
    requires IsVocab(u, a, b, ku) && IsVocab(v, a, b, kv)
    requires m < |u| && m < |v|
    requires forall j :: 0 <= j < m ==> u[j] == v[j]
    ensures !RankedBefore(a, b, u[m], v[m])
  {
    var x, y := u[m], v[m];
    KeyLessStrictTotalOrder(Df(a, b, x), x, Df(a, b, y), y, Df(a, b, y), y);
    KeyLessStrictTotalOrder(Df(a, b, y), y, Df(a, b, x), x, Df(a, b, x), x);
    if x in v {
      var j :| 0 <= j < |v| && v[j] == x;
      if j < m {
        assert false;
      }
    }
  }

  /** Two vocabularies for the same lists agree up to the shorter one's length. */
  lemma {:induction false} VocabAgree(v1: seq<string>, k1: nat, v2: seq<string>, k2: nat,
                                      a: seq<string>, b: seq<string>, i: nat)
    requires IsVocab(v1, a, b, k1) && IsVocab(v2, a, b, k2) && k1 <= k2
    requires i <= |v1|
    ensures |v1| <= |v2|
    ensures forall j :: 0 <= j < i ==> v1[j] == v2[j]
  {
    if i > 0 {
      VocabAgree(v1, k1, v2, k2, a, b, i - 1);
      var m := i - 1;
      NotRankedBefore(v1, k1, v2, k2, a, b, m);
      NotRankedBefore(v2, k2, v1, k1, a, b, m);
      KeyLessStrictTotalOrder(Df(a, b, v1[m]), v1[m], Df(a, b, v2[m]), v2[m], Df(a, b, v2[m]), v2[m]);
    }
  }

  /** Raising max_features only extends the vocabulary: the smaller one is a prefix of
      the larger, so in particular the vocabulary is determined by its inputs. */
  lemma VocabPrefix(v1: seq<string>, k1: nat, v2: seq<string>, k2: nat, a: seq<string>, b: seq<string>)
    requires IsVocab(v1, a, b, k1) && IsVocab(v2, a, b, k2) && k1 <= k2
    ensures |v1| <= |v2| && v1 == v2[..|v1|]
  {
    VocabAgree(v1, k1, v2, k2, a, b, |v1|);
  }

  // -------------------------------------------------------------- vectorize

  /** `idx.get(w)` for `idx = {w: i for i, w in enumerate(vocab)}`: the last position of w
      in vocab (a later duplicate overwrites an earlier one), or -1 when w is absent. */
  function Slot(vocab: seq<string>, w: string): (j: int)
    ensures -1 <= j < |vocab|
    ensures j == -1 <==> w !in vocab
    ensures j >= 0 ==> vocab[j] == w && forall k :: j < k < |vocab| ==> vocab[k] != w
    decreases |vocab|
  {
    if vocab == [] then -1
    else if vocab[|vocab| - 1] == w then |vocab| - 1
    else Slot(vocab[..|vocab| - 1], w)
  }

  /** How many tokens land on entry j. */
  function Occurrences(tokens: seq<string>, vocab: seq<string>, j: int): nat
  {
    if tokens == [] then 0
    else Occurrences(tokens[..|tokens| - 1], vocab, j)
         + (if Slot(vocab, tokens[|tokens| - 1]) == j then 1 else 0)
  }

  /** How many tokens are vocabulary words: `vec.sum()` of the raw counts. */
  function Matched(tokens: seq<string>, vocab: seq<string>): nat
  {
    if tokens == [] then 0
    else Matched(tokens[..|tokens| - 1], vocab) + (if tokens[|tokens| - 1] in vocab then 1 else 0)
  }

  /** Entry value after the token loop: presence in "bin" mode, a count otherwise. */
  function RawEntry(mode: string, occurrences: nat): real
  {
    if mode == "bin" then (if occurrences > 0 then 1.0 else 0.0) else occurrences as real
  }

  /** Entry value returned: "tf" divides the counts by their total when it is positive. */
  function Weight(mode: string, occurrences: nat, total: nat): real
  {
    if mode == "tf" && total > 0 then occurrences as real / total as real
    else RawEntry(mode, occurrences)
  }

  /** The vector `vectorize(tokens, vocab, mode)` returns. */
  function FeatureVector(tokens: seq<string>, vocab: seq<string>, mode: string): (v: seq<real>)
    ensures |v| == |vocab|
  {
    var total := Matched(tokens, vocab);
    seq(|vocab|, j requires 0 <= j < |vocab| => Weight(mode, Occurrences(tokens, vocab, j), total))
  }

  function Sum(v: seq<real>): real
  {
    if v == [] then 0.0 else Sum(v[..|v| - 1]) + v[|v| - 1]
  }

  /** The raw counts, the vector after the token loop in "tf" mode. */
  function Counts(tokens: seq<string>, vocab: seq<string>): (c: seq<real>)
    ensures |c| == |vocab|
  {
    seq(|vocab|, j requires 0 <= j < |vocab| => Occurrences(tokens, vocab, j) as real)
  }

  /** `vectorize`: the index dictionary, the in-place token loop over `vec`, and the final
      term-frequency division. */
  method Vectorize(tokens: seq<string>, vocab: seq<string>, mode: string) returns (vec: seq<real>)
    ensures vec == FeatureVector(tokens, vocab, mode)
  {
    var idx := map w | w in vocab :: Slot(vocab, w);
    var arr := new real[|vocab|](_ => 0.0);
    for k := 0 to |tokens|
      invariant forall j :: 0 <= j < arr.Length ==> arr[j] == RawEntry(mode, Occurrences(tokens[..k], vocab, j))
    {
      assert tokens[..k + 1][..k] == tokens[..k];
      var t := tokens[k];
      if t in idx {
        var j := idx[t];
        if mode == "bin" {
          arr[j] := 1.0;
        } else {
          arr[j] := arr[j] + 1.0;
        }
      }
    }
    assert tokens[..|tokens|] == tokens;
    vec := arr[..];
    if mode == "tf" {
      assert vec == Counts(tokens, vocab);
      SumOfCounts(tokens, vocab);
      if Sum(vec) > 0.0 {
        vec := seq(|vec|, j requires 0 <= j < |vec| => vec[j] / Sum(vec));
      }
    }
  }

  /** Tokens landing on entries 0..n-1. */
  function MatchedBelow(tokens: seq<string>, vocab: seq<string>, n: int): nat
  {
    if tokens == [] then 0
    else MatchedBelow(tokens[..|tokens| - 1], vocab, n)
         + (if 0 <= Slot(vocab, tokens[|tokens| - 1]) < n then 1 else 0)
  }

  lemma {:induction false} MatchedBelowStep(tokens: seq<string>, vocab: seq<string>, n: nat)
    ensures MatchedBelow(tokens, vocab, n + 1) == MatchedBelow(tokens, vocab, n) + Occurrences(tokens, vocab, n)
  {
    if tokens != [] {
      MatchedBelowStep(tokens[..|tokens| - 1], vocab, n);
    }
  }

  lemma {:induction false} MatchedBelowAll(tokens: seq<string>, vocab: seq<string>)
    ensures MatchedBelow(tokens, vocab, |vocab|) == Matched(tokens, vocab)
  {
    if tokens != [] {
      MatchedBelowAll(tokens[..|tokens| - 1], vocab);
    }
  }

  lemma {:induction false} SumOfCountsPrefix(tokens: seq<string>, vocab: seq<string>, n: nat)
    requires n <= |vocab|
    ensures Sum(Counts(tokens, vocab)[..n]) == MatchedBelow(tokens, vocab, n) as real
  {
    if n > 0 {
      var c := Counts(tokens, vocab);
      SumOfCountsPrefix(tokens, vocab, n - 1);
      assert c[..n][..n - 1] == c[..n - 1];
      MatchedBelowStep(tokens, vocab, n - 1);
    } else {
      assert MatchedBelow(tokens, vocab, 0) == 0 by { MatchedBelowZero(tokens, vocab); }
    }
  }

  lemma {:induction false} MatchedBelowZero(tokens: seq<string>, vocab: seq<string>)
    ensures MatchedBelow(tokens, vocab, 0) == 0
  {
    if tokens != [] {
      MatchedBelowZero(tokens[..|tokens| - 1], vocab);
    }
  }

  /** The raw counts add up to the number of tokens that are vocabulary words. */
  lemma SumOfCounts(tokens: seq<string>, vocab: seq<string>)
    ensures Sum(Counts(tokens, vocab)) == Matched(tokens, vocab) as real
  {
    var c := Counts(tokens, vocab);
    SumOfCountsPrefix(tokens, vocab, |vocab|);
    assert c[..|vocab|] == c;
    MatchedBelowAll(tokens, vocab);
  }

  /** Entry j counts the occurrences of vocab[j] among the tokens, unless a later copy of
      the same word in vocab took its index, in which case it stays 0. */
  lemma {:induction false} OccurrencesCount(tokens: seq<string>, vocab: seq<string>, j: nat)
    requires j < |vocab|
    ensures Occurrences(tokens, vocab, j)
            == if Slot(vocab, vocab[j]) == j then multiset(tokens)[vocab[j]] else 0
  {
    if tokens != [] {
      var init, t := tokens[..|tokens| - 1], tokens[|tokens| - 1];
      OccurrencesCount(init, vocab, j);
      assert tokens == init + [t];
      assert multiset(tokens) == multiset(init) + multiset{t};
      if Slot(vocab, t) == j {
        assert t == vocab[j];
      }
    }
  }

  lemma {:induction false} OccurrencesAtMostMatched(tokens: seq<string>, vocab: seq<string>, j: nat)
    ensures Occurrences(tokens, vocab, j) <= Matched(tokens, vocab)
  {
    if tokens != [] {
      OccurrencesAtMostMatched(tokens[..|tokens| - 1], vocab, j);
    }
  }

  /** No token matches exactly when no token is a vocabulary word. */
  lemma {:induction false} MatchedZeroIff(tokens: seq<string>, vocab: seq<string>)
    ensures Matched(tokens, vocab) == 0 <==> forall k :: 0 <= k < |tokens| ==> tokens[k] !in vocab
  {
    if tokens != [] {
      var init := tokens[..|tokens| - 1];
      MatchedZeroIff(init, vocab);
      assert forall k :: 0 <= k < |init| ==> init[k] == tokens[k];
    }
  }

  /** In "bin" mode every entry is 0 or 1, and entry j is 1 exactly when vocab[j] occurs
      among the tokens and j is the index `idx` gives that word. */
  lemma BinaryEntries(tokens: seq<string>, vocab: seq<string>)
    ensures forall j :: 0 <= j < |vocab| ==>
      FeatureVector(tokens, vocab, "bin")[j] == (if Slot(vocab, vocab[j]) == j && vocab[j] in tokens then 1.0 else 0.0)
  {
    forall j | 0 <= j < |vocab|
      ensures FeatureVector(tokens, vocab, "bin")[j] == (if Slot(vocab, vocab[j]) == j && vocab[j] in tokens then 1.0 else 0.0)
    {
      OccurrencesCount(tokens, vocab, j);
    }
  }

  /** Without duplicate words in vocab (as `build_vocab` guarantees), entry j in "bin" mode
      is 1 exactly when vocab[j] occurs and otherwise 0, however often it repeats. */
  lemma BinaryEntriesDistinct(tokens: seq<string>, vocab: seq<string>)
    requires NoDuplicates(vocab)
    ensures forall j :: 0 <= j < |vocab| ==>
      FeatureVector(tokens, vocab, "bin")[j] == (if vocab[j] in tokens then 1.0 else 0.0)
  {
    BinaryEntries(tokens, vocab);
    assert forall j :: 0 <= j < |vocab| ==> Slot(vocab, vocab[j]) == j;
  }

  /** Dividing every entry by t divides the sum by t. */
  lemma {:induction false} SumDivided(v: seq<real>, t: real)
    requires t != 0.0
    ensures Sum(seq(|v|, j requires 0 <= j < |v| => v[j] / t)) == Sum(v) / t
  {
    if v != [] {
      var d := seq(|v|, j requires 0 <= j < |v| => v[j] / t);
      var init := v[..|v| - 1];
      SumDivided(init, t);
      assert d[..|d| - 1] == seq(|init|, j requires 0 <= j < |init| => init[j] / t);
      assert (Sum(init) + v[|v| - 1]) / t == Sum(init) / t + v[|v| - 1] / t;
    }
  }

  /** In "tf" mode with at least one matching token, entry j is the share of the matching
      tokens that land on j. */
  lemma TermFrequencyShare(tokens: seq<string>, vocab: seq<string>, j: nat)
    requires Matched(tokens, vocab) > 0 && j < |vocab|
    ensures FeatureVector(tokens, vocab, "tf")[j]
            == Occurrences(tokens, vocab, j) as real / Matched(tokens, vocab) as real
  {
  }

  /** In "tf" mode with at least one matching token, the entries sum to 1. */
  lemma TermFrequenciesSumToOne(tokens: seq<string>, vocab: seq<string>)
    requires Matched(tokens, vocab) > 0
    ensures Sum(FeatureVector(tokens, vocab, "tf")) == 1.0
  {
    var c := Counts(tokens, vocab);
    var total := Matched(tokens, vocab) as real;
    var d := seq(|c|, j requires 0 <= j < |c| => c[j] / total);
    TermFrequenciesAreDividedCounts(tokens, vocab, d);
    SumDivided(c, total);
    SumOfCounts(tokens, vocab);
    assert Sum(d) == Sum(c) / total;
    assert Sum(c) == total;
    DivideBySelf(total);
  }

  lemma DivideBySelf(t: real)
    requires t != 0.0
    ensures t / t == 1.0
  {
  }

  lemma TermFrequenciesAreDividedCounts(tokens: seq<string>, vocab: seq<string>, d: seq<real>)
    requires Matched(tokens, vocab) > 0
    requires d == seq(|vocab|, j requires 0 <= j < |vocab| => Counts(tokens, vocab)[j] / Matched(tokens, vocab) as real)
    ensures FeatureVector(tokens, vocab, "tf") == d
  {
    var f := FeatureVector(tokens, vocab, "tf");
    forall j | 0 <= j < |vocab| ensures f[j] == d[j] {
      assert Counts(tokens, vocab)[j] == Occurrences(tokens, vocab, j) as real;
    }
  }

  /** In "tf" mode with no matching token, the vector is all zeros. */
  lemma TermFrequenciesNoMatch(tokens: seq<string>, vocab: seq<string>)
    requires Matched(tokens, vocab) == 0
    ensures forall j :: 0 <= j < |vocab| ==> FeatureVector(tokens, vocab, "tf")[j] == 0.0
  {
    forall j | 0 <= j < |vocab| ensures FeatureVector(tokens, vocab, "tf")[j] == 0.0 {
      OccurrencesAtMostMatched(tokens, vocab, j);
    }
  }

  /** Any mode other than "tf" and "bin" leaves the raw counts, undivided. */
  lemma OtherModeRawCounts(tokens: seq<string>, vocab: seq<string>, mode: string)
    requires mode != "tf" && mode != "bin"
    ensures FeatureVector(tokens, vocab, mode) == Counts(tokens, vocab)
  {
  }

  lemma {:induction false} OccurrencesConcat(s1: seq<string>, s2: seq<string>, vocab: seq<string>, j: int)
    ensures Occurrences(s1 + s2, vocab, j) == Occurrences(s1, vocab, j) + Occurrences(s2, vocab, j)
    ensures Matched(s1 + s2, vocab) == Matched(s1, vocab) + Matched(s2, vocab)
  {
    if s2 == [] {
      assert s1 + s2 == s1;
    } else {
      var init := s2[..|s2| - 1];
      OccurrencesConcat(s1, init, vocab, j);
      assert (s1 + s2)[..|s1 + s2| - 1] == s1 + init;
    }
  }

  /** A token that is not a vocabulary word has no effect on the vector, wherever it occurs. */
  lemma OutOfVocabularyIgnored(s1: seq<string>, t: string, s2: seq<string>, vocab: seq<string>, mode: string)
    requires t !in vocab
    ensures FeatureVector(s1 + [t] + s2, vocab, mode) == FeatureVector(s1 + s2, vocab, mode)
  {
    forall j | 0 <= j < |vocab|
      ensures Occurrences(s1 + [t] + s2, vocab, j) == Occurrences(s1 + s2, vocab, j)
      ensures Matched(s1 + [t] + s2, vocab) == Matched(s1 + s2, vocab)
    {
      OccurrencesConcat(s1 + [t], s2, vocab, j);
      OccurrencesConcat(s1, [t], vocab, j);
      OccurrencesConcat(s1, s2, vocab, j);
      assert [t][..0] == [];
    }
    if vocab != [] {
      OccurrencesConcat(s1 + [t], s2, vocab, 0);
      OccurrencesConcat(s1, [t], vocab, 0);
      OccurrencesConcat(s1, s2, vocab, 0);
      assert [t][..0] == [];
    }
  }

  // --------------------------------------------------------- text_to_vector

  /** `text_to_vector`: tokenise both texts, build one vocabulary from both, and vectorise
      each text over it. `vocab` is the shared vocabulary, not returned by the source. */
  method TextToVector(aText: string, bText: string, mode: string, maxFeatures: nat)
    returns (va: seq<real>, vb: seq<real>, ghost vocab: seq<string>)
    ensures IsVocab(vocab, Tokenize(aText), Tokenize(bText), maxFeatures)
    ensures va == FeatureVector(Tokenize(aText), vocab, mode)
    ensures vb == FeatureVector(Tokenize(bText), vocab, mode)
    ensures |va| == |vb| == |vocab|
    ensures |va| <= maxFeatures
  {
    var aToks := Tokenize(aText);
    var bToks := Tokenize(bText);
    var v := BuildVocab(aToks, bToks, maxFeatures);
    va := Vectorize(aToks, v, mode);
    vb := Vectorize(bToks, v, mode);
    vocab := v;
  }
}
