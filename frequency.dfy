/** The word counter: `Counter.update` over a token list, and the counts that
    a run of updates, one per subtitle file, leaves behind. A counter is a map
    from word to count; a word it has never seen is absent and counts 0. */
module Frequency {
  import opened Text

  type Counts = map<string, nat>

  /** The count of w, 0 when w is absent (what indexing a Counter returns). */
  function Get(m: Counts, w: string): nat {
    if w in m then m[w] else 0
  }

  /** Every stored count is at least 1, as for a Counter only ever updated
      with token lists. */
  predicate Positive(m: Counts) {
    forall w | w in m :: m[w] > 0
  }

  /** `counter.update(words)`: one increment per word, from first to last. */
  function Update(m: Counts, words: seq<string>): (r: Counts)
    ensures forall w :: Get(r, w) == Get(m, w) + multiset(words)[w]
    ensures Positive(m) ==> Positive(r)
    decreases |words|
  {
    if words == [] then m
    else
      assert words == [words[0]] + words[1..];
      Update(m[words[0] := Get(m, words[0]) + 1], words[1..])
  }

  /** All token lists one after the other. */
  function Flatten(docs: seq<seq<string>>): seq<string> {
    if docs == [] then [] else docs[0] + Flatten(docs[1..])
  }

  /** The counter after updating an empty counter with each list in turn. */
  function Frequencies(docs: seq<seq<string>>): Counts
    decreases |docs|
  {
    if docs == [] then map[] else Update(Frequencies(docs[..|docs| - 1]), docs[|docs| - 1])
  }

  lemma {:induction false} FlattenAppend(a: seq<seq<string>>, b: seq<seq<string>>)
    ensures Flatten(a + b) == Flatten(a) + Flatten(b)
  {
    if a == [] {
      assert a + b == b;
    } else {
      assert (a + b)[1..] == a[1..] + b;
      FlattenAppend(a[1..], b);
    }
  }

  /** Each word's final count is its number of occurrences over all lists, and
      the words counted are exactly the words that occur. */
  lemma {:induction false} FrequenciesCount(docs: seq<seq<string>>)
    ensures forall w :: Get(Frequencies(docs), w) == multiset(Flatten(docs))[w]
    ensures Positive(Frequencies(docs))
    decreases |docs|
  {
    if docs != [] {
      var init := docs[..|docs| - 1];
      var last := docs[|docs| - 1];
      var m := Frequencies(init);
      FrequenciesCount(init);
      assert docs == init + [last];
      FlattenAppend(init, [last]);
      assert Flatten([last]) == last + [];
      var all := Flatten(init) + last;
      assert Flatten(docs) == all;
      assert multiset(all) == multiset(Flatten(init)) + multiset(last);
      forall w ensures Get(Frequencies(docs), w) == multiset(all)[w] {
        assert Get(Frequencies(docs), w) == Get(m, w) + multiset(last)[w];
      }
    }
  }

  /** Two counters that agree on every count are the same counter. */
  lemma SameCounts(m: Counts, n: Counts)
    requires Positive(m) && Positive(n)
    requires forall w :: Get(m, w) == Get(n, w)
    ensures m == n
  {
    forall w | w in m ensures w in n && m[w] == n[w] {
      assert Get(m, w) > 0;
    }
    forall w | w in n ensures w in m {
      assert Get(n, w) > 0;
    }
  }

  /** Taking out the i-th list takes its words out of the flattened whole. */
  lemma FlattenRemove(b: seq<seq<string>>, i: nat)
    requires i < |b|
    ensures multiset(Flatten(b)) == multiset(Flatten(b[..i] + b[i + 1..])) + multiset(b[i])
  {
    var p, x, q := b[..i], b[i], b[i + 1..];
    Pivot(b, i);
    FlattenAppend(p, [x] + q);
    FlattenCons(x, q);
    FlattenAppend(p, q);
    ThreeParts(Flatten(p), x, Flatten(q));
  }

  lemma FlattenCons(x: seq<string>, q: seq<seq<string>>)
    ensures Flatten([x] + q) == x + Flatten(q)
  {
    assert ([x] + q)[1..] == q;
  }

  lemma ThreeParts(p: seq<string>, x: seq<string>, q: seq<string>)
    ensures multiset(p + (x + q)) == multiset(p + q) + multiset(x)
  {
  }

  /** The first element of a, found in a permutation b of a, leaves
      permutations of each other behind once removed from both. */
  lemma PickOut<T>(a: seq<T>, b: seq<T>) returns (i: nat)
    requires a != [] && multiset(a) == multiset(b)
    ensures i < |b| && b[i] == a[0]
    ensures multiset(a[1..]) == multiset(b[..i] + b[i + 1..])
  {
    assert a == [a[0]] + a[1..];
    assert a[0] in multiset(b);
    i :| 0 <= i < |b| && b[i] == a[0];
    assert b == b[..i] + [b[i]] + b[i + 1..];
    var ma, mb := multiset(a[1..]), multiset(b[..i] + b[i + 1..]);
    assert multiset(a) == ma + multiset{a[0]};
    assert mb == multiset(b[..i]) + multiset(b[i + 1..]);
    assert multiset(b) == multiset(b[..i]) + multiset{a[0]} + multiset(b[i + 1..]);
    assert ma + multiset{a[0]} == mb + multiset{a[0]};
    forall y ensures ma[y] == mb[y] {
      assert (ma + multiset{a[0]})[y] == (mb + multiset{a[0]})[y];
    }
  }

  lemma {:induction false} FlattenPermutation(a: seq<seq<string>>, b: seq<seq<string>>)
    requires multiset(a) == multiset(b)
    ensures multiset(Flatten(a)) == multiset(Flatten(b))
    decreases |a|
  {
    if a == [] {
      assert |b| == |multiset(b)| == 0;
    } else {
      var i := PickOut(a, b);
      var b' := b[..i] + b[i + 1..];
      FlattenRemove(b, i);
      FlattenRemove(a, 0);
      assert a[..0] + a[1..] == a[1..];
      FlattenPermutation(a[1..], b');
    }
  }

  /** The final counts do not depend on the order in which the files are
      processed: any reordering of the token lists gives the same counter. */
  lemma OrderIndependent(a: seq<seq<string>>, b: seq<seq<string>>)
    requires multiset(a) == multiset(b)
    ensures Frequencies(a) == Frequencies(b)
  {
    FrequenciesCount(a);
    FrequenciesCount(b);
    FlattenPermutation(a, b);
    SameCounts(Frequencies(a), Frequencies(b));
  }

  /** The Counter's key order (the order of `items()`) after
      `update(words)`: a word is appended when it is first counted. */
  function Seen(order: seq<string>, words: seq<string>): (r: seq<string>)
    ensures order <= r
    ensures forall w :: multiset(r)[w] == multiset(order)[w] + (if w in words && w !in order then 1 else 0)
    decreases |words|
  {
    if words == [] then order
    else
      var x := words[0];
      var next := if x in order then order else order + [x];
      assert forall w :: w in words <==> w == x || w in words[1..];
      assert forall w :: w in next <==> w == x || w in order;
      Seen(next, words[1..])
  }

  /** The position of the first occurrence of w in words. */
  function FirstIndex(w: string, words: seq<string>): (i: nat)
    requires w in words
    ensures i < |words| && words[i] == w
    ensures forall k | 0 <= k < i :: words[k] != w
  {
    if words[0] == w then 0 else 1 + FirstIndex(w, words[1..])
  }

  /** `update` appends the words not yet counted, each once, in the order of
      their first occurrence in words: dict insertion order. */
  lemma {:induction false} SeenFirstOccurrence(order: seq<string>, words: seq<string>)
    ensures var r := Seen(order, words);
      forall i | |order| <= i < |r| :: r[i] in words && r[i] !in order
    ensures var r := Seen(order, words);
      forall i, j | |order| <= i < j < |r| :: FirstIndex(r[i], words) < FirstIndex(r[j], words)
    decreases |words|
  {
    if words != [] {
      var x, t := words[0], words[1..];
      var next := if x in order then order else order + [x];
      SeenFirstOccurrence(next, t);
      var r := Seen(order, words);
      assert r == Seen(next, t);
      forall i | |order| <= i < |r|
        ensures r[i] in words && r[i] !in order
        ensures i < |next| ==> FirstIndex(r[i], words) == 0
        ensures |next| <= i ==> FirstIndex(r[i], words) == 1 + FirstIndex(r[i], t)
      {
        if i < |next| {
          assert r[i] == next[i] == x;
        } else {
          assert r[i] in t && r[i] !in next;
          assert r[i] != x;
        }
      }
    }
  }

  /** Words first seen as a then b are listed as a then b. */
  lemma SeenTwo(a: string, b: string)
    requires a != b
    ensures Seen([], [a, b]) == [a, b]
  {
    assert [a, b][1..] == [b];
    assert [b][1..] == [];
    assert Seen([a, b], []) == [a, b];
    assert b !in [a] && [a] + [b] == [a, b];
    assert Seen([a], [b]) == Seen([a, b], []);
    assert a !in [] && [] + [a] == [a];
  }

  /** The Counter's key order after updating an empty counter with each list. */
  function KeyOrder(docs: seq<seq<string>>): seq<string>
    decreases |docs|
  {
    if docs == [] then [] else Seen(KeyOrder(docs[..|docs| - 1]), docs[|docs| - 1])
  }

  /** The key order lists every word that occurs, once each. */
  lemma {:induction false} KeyOrderCount(docs: seq<seq<string>>)
    ensures forall w :: multiset(KeyOrder(docs))[w] == if w in Flatten(docs) then 1 else 0
    decreases |docs|
  {
    if docs != [] {
      var init := docs[..|docs| - 1];
      var last := docs[|docs| - 1];
      KeyOrderCount(init);
      assert docs == init + [last];
      FlattenAppend(init, [last]);
      assert Flatten([last]) == last + [];
      assert Flatten(docs) == Flatten(init) + last;
      forall w ensures multiset(KeyOrder(docs))[w] == if w in Flatten(docs) then 1 else 0 {
        assert w in KeyOrder(init) <==> w in Flatten(init);
      }
    }
  }

  /** Every word that occurs in some token list is counted, and no other. */
  lemma CountedWords(docs: seq<seq<string>>)
    ensures forall w :: w in Frequencies(docs) <==> w in Flatten(docs)
  {
    FrequenciesCount(docs);
    forall w ensures w in Frequencies(docs) <==> w in Flatten(docs) {
      assert w in Frequencies(docs) <==> Get(Frequencies(docs), w) > 0;
    }
  }

  /** Two files with tokens [a, b, a] and [b, b] give a: 2 and b: 3. */
  lemma TwoFilesExample(a: string, b: string)
    requires a != b
    ensures Frequencies([[a, b, a], [b, b]]) == map[a := 2, b := 3]
  {
    FrequenciesOfTwo([a, b, a], [b, b]);
    TwoUpdates(a, b);
  }

  /** Two token lists are two updates of an empty counter. */
  lemma FrequenciesOfTwo(x: seq<string>, y: seq<string>)
    ensures Frequencies([x, y]) == Update(Update(map[], x), y)
  {
    assert [x][..0] == [];
    assert Frequencies([x]) == Update(map[], x);
    assert [x, y][..1] == [x];
  }

  lemma TwoUpdates(a: string, b: string)
    requires a != b
    ensures Update(Update(map[], [a, b, a]), [b, b]) == map[a := 2, b := 3]
  {
    var m2 := Update(Update(map[], [a, b, a]), [b, b]);
    var m := map[a := 2, b := 3];
    assert multiset([a, b, a]) == multiset{a, a, b};
    assert multiset([b, b]) == multiset{b, b};
    forall w ensures Get(m2, w) == Get(m, w) {
      assert Get(m2, w) == multiset{a, a, b}[w] + multiset{b, b}[w];
    }
    SameCounts(m2, m);
  }
}
