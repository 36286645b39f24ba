// Sorted lists of texts, and what it means to look up a query in such a list.
module SortedTexts {
  // A text after case folding
  type Text = seq<nat>

  // Lexicographic order, a proper prefix being smaller than the whole text
  predicate Less(x: Text, y: Text) {
    y != [] && (x == [] || x[0] < y[0] || (x[0] == y[0] && Less(x[1..], y[1..])))
  }

  ghost predicate Sorted(texts: seq<Text>) {
    forall i, j :: 0 <= i < j < |texts| ==> !Less(texts[j], texts[i])
  }

  // The character at the given depth, or something smaller than any character
  function CharAt(text: Text, depth: nat): int {
    if depth < |text| then text[depth] else -1
  }

  lemma {:induction false} LessBeyondPrefix(p: Text, x: Text, y: Text)
    ensures Less(p + x, p + y) <==> Less(x, y)
  {
    if p == [] {
      assert p + x == x && p + y == y;
    } else {
      assert (p + x)[1..] == p[1..] + x && (p + y)[1..] == p[1..] + y;
      LessBeyondPrefix(p[1..], x, y);
    }
  }

  // Texts which have a prefix in common are ordered by the character behind it.
  lemma LessByChar(p: Text, x: Text, y: Text)
    requires p <= x && p <= y && CharAt(x, |p|) < CharAt(y, |p|)
    ensures Less(x, y) && !Less(y, x)
  {
    var m := |p|;
    assert x == p + x[m..] && y == p + y[m..];
    LessBeyondPrefix(p, x[m..], y[m..]);
    LessBeyondPrefix(p, y[m..], x[m..]);
  }

  // Between two texts with a common prefix, there are only texts with that prefix.
  lemma {:induction false} PrefixConvex(p: Text, x: Text, y: Text, z: Text)
    requires p <= x && p <= z && !Less(y, x) && !Less(z, y)
    ensures p <= y
  {
    if p != [] {
      assert y != [] && x[0] == p[0] == z[0];
      assert y[0] == p[0];
      PrefixConvex(p[1..], x[1..], y[1..], z[1..]);
      assert y == [y[0]] + y[1..] && p == [p[0]] + p[1..];
    }
  }

  // The texts starting with `p` are exactly those in lines `top` to `bottom`.
  ghost predicate IsBlock(texts: seq<Text>, p: Text, top: nat, bottom: nat) {
    && top <= bottom < |texts|
    && forall i :: 0 <= i < |texts| ==> (p <= texts[i] <==> top <= i <= bottom)
  }

  lemma BlockSorted(texts: seq<Text>, p: Text, top: nat, bottom: nat, i: nat, j: nat)
    requires Sorted(texts) && IsBlock(texts, p, top, bottom) && top <= i <= j <= bottom
    ensures CharAt(texts[i], |p|) <= CharAt(texts[j], |p|)
  {
    if CharAt(texts[i], |p|) > CharAt(texts[j], |p|) {
      LessByChar(p, texts[j], texts[i]);
    }
  }

  // Line `i` is the first one in the block whose character at depth |p| is not smaller than
  // `key`; if there is none, line `i` is the last one of the block.
  ghost predicate IsFirstNotBelow(texts: seq<Text>, depth: nat, top: nat, bottom: nat, key: nat, i: nat) {
    && top <= i <= bottom < |texts|
    && (CharAt(texts[i], depth) >= key || i == bottom)
    && forall j :: top <= j < i ==> CharAt(texts[j], depth) < key
  }

  // Line `i` is the last one in the block whose character at depth |p| is not greater than `key`.
  ghost predicate IsLastNotAbove(texts: seq<Text>, depth: nat, top: nat, bottom: nat, key: nat, i: nat) {
    && top <= i <= bottom < |texts|
    && CharAt(texts[i], depth) <= key
    && forall j :: i < j <= bottom ==> CharAt(texts[j], depth) > key
  }

  ghost predicate ProperPrefix(x: Text, y: Text) {
    x <= y && |x| < |y|
  }

  // What a search for `query` in a sorted list is supposed to return: the first line which starts
  // with the query.  If there is no such line: among those lines sharing the longest possible
  // prefix with the query, the first one which continues with a greater character than the
  // query, or the last one of these lines.
  ghost predicate IsResult(texts: seq<Text>, query: Text, i: nat) {
    && i < |texts|
    && if exists j :: 0 <= j < |texts| && query <= texts[j] then
         query <= texts[i] && forall j :: 0 <= j < i ==> !(query <= texts[j])
       else
         exists m: nat :: m < |query| && IsClosest(texts, query, m, i)
  }

  ghost predicate IsClosest(texts: seq<Text>, query: Text, m: nat, i: nat)
    requires i < |texts| && m < |query|
  {
    && query[..m] <= texts[i]
    && (forall j :: 0 <= j < |texts| ==> !(query[..m + 1] <= texts[j]))
    && (forall j :: 0 <= j < i && query[..m] <= texts[j] ==> CharAt(texts[j], m) < query[m])
    && (CharAt(texts[i], m) > query[m] || forall j :: i < j < |texts| ==> !(query[..m] <= texts[j]))
  }

  lemma {:induction false} PrefixNotAbove(x: Text, y: Text)
    requires x <= y
    ensures !Less(y, x)
  {
    LessBeyondPrefix(x, y[|x|..], []);
    assert y == x + y[|x|..] && x == x + [];
  }

  lemma PrefixByChar(query: Text, m: nat, text: Text)
    requires m < |query| && query[..m] <= text
    ensures query[..m + 1] <= text <==> CharAt(text, m) == query[m]
  {
    assert query[..m + 1] == query[..m] + [query[m]];
  }

  lemma ShorterPrefix(query: Text, m: nat, text: Text)
    requires m <= |query|
    ensures query <= text ==> query[..m] <= text
    ensures m < |query| && query <= text ==> CharAt(text, m) == query[m]
  {
  }

  // The lines in front of the result are smaller than the query.
  lemma SmallerInFront(texts: seq<Text>, query: Text, i: nat, j: nat)
    requires Sorted(texts) && IsResult(texts, query, i) && j < i
    ensures Less(texts[j], query)
  {
    if query <= texts[i] {
      if !Less(texts[j], query) {
        PrefixConvex(query, query, texts[j], texts[i]);
      }
    } else {
      var m: nat :| m < |query| && IsClosest(texts, query, m, i);
      if query[..m] <= texts[j] {
        LessByChar(query[..m], texts[j], query);
      } else if !Less(texts[j], query) {
        PrefixConvex(query[..m], query, texts[j], texts[i]);
      }
    }
  }

  // The result is where the query would have to be inserted to keep the list sorted, or the line
  // directly in front of that place.
  lemma ResultIsInsertionPoint(texts: seq<Text>, query: Text, i: nat)
    requires Sorted(texts) && IsResult(texts, query, i)
    ensures forall j :: 0 <= j < i ==> Less(texts[j], query)
    ensures !Less(texts[i], query) || forall j :: i < j < |texts| ==> Less(query, texts[j])
  {
    forall j | 0 <= j < i ensures Less(texts[j], query) {
      SmallerInFront(texts, query, i, j);
    }
    if query <= texts[i] {
      PrefixNotAbove(query, texts[i]);
    } else {
      var m: nat :| m < |query| && IsClosest(texts, query, m, i);
      PrefixByChar(query, m, texts[i]);
      if CharAt(texts[i], m) > query[m] {
        LessByChar(query[..m], query, texts[i]);
      } else {
        forall j | i < j < |texts| ensures Less(query, texts[j]) {
          if !Less(query, texts[j]) {
            PrefixConvex(query[..m], texts[i], texts[j], query);
          }
        }
      }
    }
  }

  lemma ShortenPrefix(query: Text, a: nat, b: nat, text: Text)
    requires b <= |query| && query[..b] <= text
    ensures a <= b ==> query[..a] <= text
  {
    assert forall k: nat :: k <= b ==> query[..b][..k] == query[..k];
  }

  lemma ClosestDepthUnique(texts: seq<Text>, query: Text, m: nat, i: nat, m': nat, j: nat)
    requires i < |texts| && j < |texts| && m < |query| && m' < |query|
    requires IsClosest(texts, query, m, i) && IsClosest(texts, query, m', j)
    ensures m <= m'
  {
    ShortenPrefix(query, m' + 1, m, texts[i]);
  }

  lemma ResultIsUnique(texts: seq<Text>, query: Text, i: nat, j: nat)
    requires IsResult(texts, query, i) && IsResult(texts, query, j)
    ensures i == j
  {
    if !exists k :: 0 <= k < |texts| && query <= texts[k] {
      var m: nat :| m < |query| && IsClosest(texts, query, m, i);
      var m': nat :| m' < |query| && IsClosest(texts, query, m', j);
      ClosestDepthUnique(texts, query, m, i, m', j);
      ClosestDepthUnique(texts, query, m', j, m, i);
    }
  }
}
