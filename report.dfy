/** The report of subtitle_parser.py:54-60: the counter's entries as
    (word, frequency) rows, sorted by frequency with the highest first, rows
    whose word is blank once stripped dropped, and the first 2000 kept.
    The sort is pandas' default one, which is not stable: rows with equal
    frequencies may come out in any order. The properties are therefore
    proved for every descending arrangement of the entries, and `SortDesc`
    is just one such arrangement. */
module Report {
  import opened Text
  import opened Frequency

  datatype Row = Row(word: string, frequency: nat)

  /** `.head(2000)`. */
  const TopN: nat := 2000

  predicate SortedDesc(rows: seq<Row>) {
    forall i, j | 0 <= i < j < |rows| :: rows[i].frequency >= rows[j].frequency
  }

  /** x is the counter's entry for its word. */
  predicate IsEntry(freq: Counts, x: Row) {
    x.word in freq && freq[x.word] == x.frequency
  }

  /** rows holds every entry of freq exactly once and nothing else, as
      `DataFrame(word_freq.items())` does in some order. */
  predicate IsListing(freq: Counts, rows: seq<Row>) {
    && (forall i | 0 <= i < |rows| :: IsEntry(freq, rows[i]))
    && (forall w | w in freq :: multiset(rows)[Row(w, freq[w])] == 1)
  }

  predicate DistinctWords(rows: seq<Row>) {
    forall i, j | 0 <= i < j < |rows| :: rows[i].word != rows[j].word
  }

  /** `str.strip().astype(bool)` is false: only whitespace (see `BlankIsEmptyStrip`). */
  predicate Blank(w: string) {
    AllSpace(w)
  }

  lemma BlankIsEmptyStrip(w: string)
    ensures Blank(w) <==> Strip(w) == []
  {
  }

  /** What the report promises: at most 2000 rows, highest frequency first,
      each a distinct non-blank entry of the counter, and a non-blank entry
      is missing only when 2000 rows that are at least as frequent came first. */
  predicate IsTopReport(freq: Counts, rows: seq<Row>) {
    && |rows| <= TopN
    && SortedDesc(rows)
    && (forall i | 0 <= i < |rows| :: IsEntry(freq, rows[i]) && !Blank(rows[i].word))
    && DistinctWords(rows)
    && (forall w | w in freq && !Blank(w) && Row(w, freq[w]) !in rows ::
          |rows| == TopN && forall i | 0 <= i < |rows| :: rows[i].frequency >= freq[w])
  }

  /** `DataFrame(word_freq.items())`: one row per key, in the counter's key order. */
  function Items(freq: Counts, order: seq<string>): (r: seq<Row>)
    ensures |r| == |order|
    ensures forall i | 0 <= i < |r| :: r[i] == Row(order[i], Get(freq, order[i]))
    ensures forall w :: multiset(r)[Row(w, Get(freq, w))] == multiset(order)[w]
  {
    if order == [] then []
    else
      assert order == [order[0]] + order[1..];
      [Row(order[0], Get(freq, order[0]))] + Items(freq, order[1..])
  }

  /** Listing the keys once each, in any order, lists the counter. */
  lemma ItemsListing(freq: Counts, order: seq<string>)
    requires forall w :: multiset(order)[w] == if w in freq then 1 else 0
    ensures IsListing(freq, Items(freq, order))
  {
    var r := Items(freq, order);
    forall i | 0 <= i < |r| ensures IsEntry(freq, r[i]) {
      assert order[i] in multiset(order);
    }
    forall w | w in freq ensures multiset(r)[Row(w, freq[w])] == 1 {
      assert Get(freq, w) == freq[w];
    }
  }

  /** One descending sort: insertion of x before the first row it beats or ties. */
  function Insert(x: Row, sorted: seq<Row>): (r: seq<Row>)
    requires SortedDesc(sorted)
    ensures SortedDesc(r)
    ensures multiset(r) == multiset(sorted) + multiset{x}
  {
    if sorted == [] || x.frequency >= sorted[0].frequency then
      InsertFront(x, sorted);
      [x] + sorted
    else
      var top, tail := sorted[0], sorted[1..];
      assert sorted == [top] + tail;
      var rest := Insert(x, tail);
      InsertBelow(x, top, tail, rest);
      [top] + rest
  }

  lemma InsertFront(x: Row, sorted: seq<Row>)
    requires SortedDesc(sorted)
    requires sorted == [] || x.frequency >= sorted[0].frequency
    ensures SortedDesc([x] + sorted)
  {
    var r := [x] + sorted;
    forall i, j | 0 <= i < j < |r| ensures r[i].frequency >= r[j].frequency {
      assert r[j] == sorted[j - 1];
      if i > 0 {
        assert r[i] == sorted[i - 1];
      } else {
        assert sorted[0].frequency >= sorted[j - 1].frequency;
      }
    }
  }

  /** A row kept in front of the insertion point stays in front. */
  lemma InsertBelow(x: Row, top: Row, tail: seq<Row>, rest: seq<Row>)
    requires SortedDesc([top] + tail) && x.frequency < top.frequency
    requires SortedDesc(rest) && multiset(rest) == multiset(tail) + multiset{x}
    ensures SortedDesc([top] + rest)
    ensures multiset([top] + rest) == multiset([top] + tail) + multiset{x}
  {
    forall i | 0 <= i < |rest| ensures rest[i].frequency <= top.frequency {
      assert rest[i] in multiset(tail) + multiset{x};
      if rest[i] != x {
        assert rest[i] in multiset(tail);
        var j :| 0 <= j < |tail| && tail[j] == rest[i];
        assert ([top] + tail)[0] == top && ([top] + tail)[j + 1] == tail[j];
      }
    }
    var r := [top] + rest;
    forall i, j | 0 <= i < j < |r| ensures r[i].frequency >= r[j].frequency {
      assert r[j] == rest[j - 1];
      if i > 0 {
        assert r[i] == rest[i - 1];
      }
    }
  }

  /** A descending arrangement of rows (ties are not kept in any particular
      order, just as pandas does not promise to). */
  function SortDesc(rows: seq<Row>): (r: seq<Row>)
    ensures SortedDesc(r)
    ensures multiset(r) == multiset(rows)
  {
    if rows == [] then []
    else
      assert rows == [rows[0]] + rows[1..];
      Insert(rows[0], SortDesc(rows[1..]))
  }

  /** A rearrangement of a listing is a listing. */
  lemma ListingPermutation(freq: Counts, rows: seq<Row>, r: seq<Row>)
    requires IsListing(freq, rows) && multiset(r) == multiset(rows)
    ensures IsListing(freq, r)
  {
    forall i | 0 <= i < |r| ensures IsEntry(freq, r[i]) {
      assert r[i] in multiset(rows);
    }
  }

  /** The rows whose word is not blank, in order:
      `df_sorted[df_sorted['Word'].str.strip().astype(bool)]`. */
  function NonBlankRows(rows: seq<Row>): (r: seq<Row>)
    ensures forall i | 0 <= i < |r| :: !Blank(r[i].word)
    ensures forall i | 0 <= i < |r| :: r[i] in rows
  {
    if rows == [] then []
    else
      assert rows == [rows[0]] + rows[1..];
      var rest := NonBlankRows(rows[1..]);
      assert forall i | 0 <= i < |rest| :: rest[i] in rows[1..];
      if Blank(rows[0].word) then rest else [rows[0]] + rest
  }

  /** The filter keeps the surviving rows in their original order. */
  lemma {:induction false} NonBlankInOrder(rows: seq<Row>)
    ensures IsSubseq(NonBlankRows(rows), rows)
  {
    if rows != [] {
      NonBlankInOrder(rows[1..]);
      var rest := NonBlankRows(rows[1..]);
      if !Blank(rows[0].word) {
        assert ([rows[0]] + rest)[1..] == rest;
      }
    }
  }

  /** Dropping rows from a sorted sequence leaves it sorted. */
  lemma {:induction false} NonBlankSorted(rows: seq<Row>)
    requires SortedDesc(rows)
    ensures SortedDesc(NonBlankRows(rows))
  {
    if rows != [] {
      NonBlankSorted(rows[1..]);
      var rest := NonBlankRows(rows[1..]);
      forall i | 0 <= i < |rest| ensures rest[i].frequency <= rows[0].frequency {
        var j :| 0 <= j < |rows[1..]| && rows[1..][j] == rest[i];
        assert rows[j + 1] == rest[i];
      }
      if !Blank(rows[0].word) {
        InsertFront(rows[0], rest);
      }
    }
  }

  /** The filter keeps every copy of a non-blank row and no blank one. */
  lemma {:induction false} NonBlankCount(rows: seq<Row>)
    ensures forall x :: multiset(NonBlankRows(rows))[x] == if Blank(x.word) then 0 else multiset(rows)[x]
  {
    if rows != [] {
      NonBlankCount(rows[1..]);
      assert rows == [rows[0]] + rows[1..];
    }
  }

  /** The report drawn from a sorted listing: non-blank rows, first 2000. */
  function TopWords(sorted: seq<Row>): seq<Row> {
    var rows := NonBlankRows(sorted);
    if |rows| <= TopN then rows else rows[..TopN]
  }

  /** A row that occurs at two positions is counted at least twice. */
  lemma CountedTwice(rows: seq<Row>, i: nat, j: nat)
    requires i < j < |rows|
    ensures rows[i] == rows[j] ==> multiset(rows)[rows[i]] >= 2
  {
    if rows[i] == rows[j] {
      var x := rows[i];
      assert rows == rows[..j] + [x] + rows[j + 1..];
      assert x in rows[..j];
      assert multiset(rows) == multiset(rows[..j]) + multiset{x} + multiset(rows[j + 1..]);
    }
  }

  /** A sequence of counter entries with no repeated row has no repeated word. */
  lemma EntriesDistinct(freq: Counts, rows: seq<Row>)
    requires forall i | 0 <= i < |rows| :: IsEntry(freq, rows[i])
    requires forall x :: multiset(rows)[x] <= 1
    ensures DistinctWords(rows)
  {
    forall i, j | 0 <= i < j < |rows| ensures rows[i].word != rows[j].word {
      CountedTwice(rows, i, j);
      assert multiset(rows)[rows[i]] <= 1;
      assert IsEntry(freq, rows[i]) && IsEntry(freq, rows[j]);
    }
  }

  /** The rows the report keeps are each a listed entry, at most once. */
  lemma TopRowsFromListing(freq: Counts, sorted: seq<Row>)
    requires IsListing(freq, sorted)
    ensures forall i | 0 <= i < |TopWords(sorted)| :: IsEntry(freq, TopWords(sorted)[i])
    ensures forall x :: multiset(TopWords(sorted))[x] <= 1
  {
    var nb := NonBlankRows(sorted);
    var r := TopWords(sorted);
    var k := |r|;
    NonBlankCount(sorted);
    assert nb == r + nb[k..];
    forall i | 0 <= i < k ensures IsEntry(freq, r[i]) {
      assert r[i] == nb[i];
    }
    forall x ensures multiset(r)[x] <= 1 {
      assert multiset(nb)[x] == multiset(r)[x] + multiset(nb[k..])[x];
      if x in sorted {
        var i :| 0 <= i < |sorted| && sorted[i] == x;
        assert IsEntry(freq, sorted[i]);
        assert x == Row(x.word, freq[x.word]);
      }
    }
  }

  /** A non-blank entry left out of the report lost to a full report of rows
      at least as frequent. */
  lemma TopRowsComplete(freq: Counts, sorted: seq<Row>, w: string)
    requires IsListing(freq, sorted) && SortedDesc(sorted)
    requires w in freq && !Blank(w) && Row(w, freq[w]) !in TopWords(sorted)
    ensures |TopWords(sorted)| == TopN
    ensures forall i | 0 <= i < TopN :: TopWords(sorted)[i].frequency >= freq[w]
  {
    var nb := NonBlankRows(sorted);
    var r := TopWords(sorted);
    NonBlankCount(sorted);
    NonBlankSorted(sorted);
    var x := Row(w, freq[w]);
    assert multiset(nb)[x] == 1;
    assert x in nb;
    var j :| 0 <= j < |nb| && nb[j] == x;
    assert forall i | 0 <= i < |r| :: r[i] == nb[i];
    assert j >= |r|;
    assert |r| == TopN;
    forall i | 0 <= i < TopN ensures r[i].frequency >= freq[w] {
      assert r[i] == nb[i];
    }
  }

  /** For every sorted listing of the counter, whatever order pandas gives to
      tied rows, the selected rows form a top report. */
  lemma TopWordsIsReport(freq: Counts, sorted: seq<Row>)
    requires IsListing(freq, sorted) && SortedDesc(sorted)
    ensures IsTopReport(freq, TopWords(sorted))
  {
    var r := TopWords(sorted);
    NonBlankSorted(sorted);
    TopRowsFromListing(freq, sorted);
    EntriesDistinct(freq, r);
    forall w | w in freq && !Blank(w) && Row(w, freq[w]) !in r
      ensures |r| == TopN && forall i | 0 <= i < |r| :: r[i].frequency >= freq[w]
    {
      TopRowsComplete(freq, sorted, w);
    }
  }

  /** Every entry of freq is in rows, or rows is full of entries at least as frequent. */
  predicate Complete(freq: Counts, rows: seq<Row>) {
    forall w | w in freq :: Row(w, freq[w]) in rows
      || (|rows| == TopN && forall i | 0 <= i < |rows| :: rows[i].frequency >= freq[w])
  }

  /** Without blank words a top report leaves no entry out except for lack of room. */
  lemma TopReportWithoutBlanks(freq: Counts, rows: seq<Row>)
    requires IsTopReport(freq, rows)
    requires forall w | w in freq :: !Blank(w)
    ensures Complete(freq, rows)
  {
  }

  /** When no word is blank the blank-word filter keeps every row, and the
      report is just the first 2000 rows of the sorted listing. */
  lemma {:induction false} NothingBlank(rows: seq<Row>)
    requires forall i | 0 <= i < |rows| :: !Blank(rows[i].word)
    ensures NonBlankRows(rows) == rows
    ensures TopWords(rows) == if |rows| <= TopN then rows else rows[..TopN]
  {
    if rows != [] {
      NothingBlank(rows[1..]);
      assert rows == [rows[0]] + rows[1..];
    }
  }

  /** The counter a: 2, b: 3 (from token lists [a, b, a] and [b, b]) is
      reported as b then a, whatever listing the sort starts from. */
  lemma TwoWordReport(a: string, b: string, sorted: seq<Row>)
    requires !Blank(a) && !Blank(b) && a != b
    requires IsListing(map[a := 2, b := 3], sorted) && SortedDesc(sorted)
    ensures TopWords(sorted) == [Row(b, 3), Row(a, 2)]
  {
    TwoEntryListing(a, b, sorted);
    TwoEntrySorted(Row(a, 2), Row(b, 3), sorted);
    forall i | 0 <= i < |sorted| ensures !Blank(sorted[i].word) {
      assert sorted[i].word == if i == 0 then b else a;
    }
    NothingBlank(sorted);
  }

  lemma TwoEntryListing(a: string, b: string, sorted: seq<Row>)
    requires a != b && IsListing(map[a := 2, b := 3], sorted)
    ensures multiset(sorted) == multiset{Row(a, 2), Row(b, 3)}
  {
    var freq := map[a := 2, b := 3];
    assert multiset(sorted)[Row(a, freq[a])] == 1 && multiset(sorted)[Row(b, freq[b])] == 1;
    forall x ensures multiset(sorted)[x] == multiset{Row(a, 2), Row(b, 3)}[x] {
      if x in sorted {
        var i :| 0 <= i < |sorted| && sorted[i] == x;
        assert IsEntry(freq, sorted[i]);
      }
    }
  }

  lemma TwoEntrySorted(ra: Row, rb: Row, sorted: seq<Row>)
    requires ra.frequency < rb.frequency
    requires multiset(sorted) == multiset{ra, rb} && SortedDesc(sorted)
    ensures sorted == [rb, ra]
  {
    assert |sorted| == |multiset(sorted)| == 2;
    assert sorted[0] in multiset(sorted) && sorted[1] in multiset(sorted);
    CountedTwice(sorted, 0, 1);
  }
}
