/** The script's main loop (subtitle_parser.py:37-51) and its report
    (subtitle_parser.py:54-60). Reading the directory is left to the caller:
    the files arrive as a sequence of documents in directory order, each with
    its extension and decoded text. The morphological analyzer is the
    parameter `analyze`, the stopword set `stopwords`, and the full-width and
    CJK punctuation of the character class `cjk`. */
module Pipeline {
  import opened Text
  import opened Cleaner
  import opened Tokens
  import opened Frequency
  import opened Report

  /** One directory entry: `os.path.splitext(filename)[1]` and the file's text. */
  datatype Document = Document(extension: string, text: string)

  /** Only `.srt` and `.ass` files are read. */
  predicate IsSubtitle(d: Document) {
    d.extension == ".srt" || d.extension == ".ass"
  }

  /** `tokenize_japanese(clean_text(text, file_extension))` for one file. */
  function FileTokens(d: Document, cjk: set<char>, stopwords: set<string>,
                      analyze: string -> seq<string>): (r: seq<string>)
    ensures forall i | 0 <= i < |r| :: Keeps(r[i], stopwords)
  {
    Tokenize(CleanText(d.text, d.extension, cjk), stopwords, analyze)
  }

  /** The per-file step of the loop, as a value that the loop applies. */
  function FileTokenizer(cjk: set<char>, stopwords: set<string>,
                         analyze: string -> seq<string>): (f: Document -> seq<string>)
    ensures KeepsAll(f, stopwords)
  {
    d => FileTokens(d, cjk, stopwords, analyze)
  }

  /** Every token a per-file step returns passes the token filter. */
  ghost predicate KeepsAll(tokens: Document -> seq<string>, stopwords: set<string>) {
    forall d, j | 0 <= j < |tokens(d)| :: Keeps(tokens(d)[j], stopwords)
  }

  /** The token list of each subtitle file, in directory order; files with
      any other extension contribute nothing. */
  function TokenLists(files: seq<Document>, tokens: Document -> seq<string>): (r: seq<seq<string>>)
    ensures |r| <= |files|
  {
    if files == [] then []
    else
      var rest := TokenLists(files[1..], tokens);
      if IsSubtitle(files[0]) then [tokens(files[0])] + rest else rest
  }

  /** l is what the per-file step makes of one of the subtitle files. */
  ghost predicate FromSubtitle(files: seq<Document>, tokens: Document -> seq<string>, l: seq<string>) {
    exists k | 0 <= k < |files| :: IsSubtitle(files[k]) && l == tokens(files[k])
  }

  /** Each token list is the per-file step applied to some subtitle file. */
  lemma {:induction false} TokenListsFromSubtitles(files: seq<Document>, tokens: Document -> seq<string>)
    ensures forall l | l in TokenLists(files, tokens) :: FromSubtitle(files, tokens, l)
  {
    if files != [] {
      TokenListsFromSubtitles(files[1..], tokens);
      var rest := TokenLists(files[1..], tokens);
      forall l | l in rest ensures FromSubtitle(files, tokens, l) {
        var k :| 0 <= k < |files[1..]| && IsSubtitle(files[1..][k]) && l == tokens(files[1..][k]);
        assert files[k + 1] == files[1..][k];
      }
      if IsSubtitle(files[0]) {
        assert FromSubtitle(files, tokens, tokens(files[0]));
      }
    }
  }

  lemma {:induction false} TokenListsAppend(a: seq<Document>, b: seq<Document>, tokens: Document -> seq<string>)
    ensures TokenLists(a + b, tokens) == TokenLists(a, tokens) + TokenLists(b, tokens)
  {
    if a == [] {
      assert a + b == b;
    } else {
      assert (a + b)[1..] == a[1..] + b;
      TokenListsAppend(a[1..], b, tokens);
    }
  }

  /** One more file adds its token list when it is a subtitle file, and nothing otherwise. */
  lemma TokenListsStep(files: seq<Document>, i: nat, tokens: Document -> seq<string>)
    requires i < |files|
    ensures TokenLists(files[..i + 1], tokens)
         == TokenLists(files[..i], tokens) + (if IsSubtitle(files[i]) then [tokens(files[i])] else [])
  {
    assert files[..i + 1] == files[..i] + [files[i]];
    TokenListsAppend(files[..i], [files[i]], tokens);
  }

  /** The counter and its key order after one more file. */
  lemma CounterStep(files: seq<Document>, i: nat, tokens: Document -> seq<string>)
    requires i < |files|
    ensures Frequencies(TokenLists(files[..i + 1], tokens))
         == if IsSubtitle(files[i]) then Update(Frequencies(TokenLists(files[..i], tokens)), tokens(files[i]))
            else Frequencies(TokenLists(files[..i], tokens))
    ensures KeyOrder(TokenLists(files[..i + 1], tokens))
         == if IsSubtitle(files[i]) then Seen(KeyOrder(TokenLists(files[..i], tokens)), tokens(files[i]))
            else KeyOrder(TokenLists(files[..i], tokens))
  {
    var before := TokenLists(files[..i], tokens);
    TokenListsStep(files, i, tokens);
    if IsSubtitle(files[i]) {
      var after := before + [tokens(files[i])];
      assert after[..|after| - 1] == before;
    } else {
      assert before + [] == before;
    }
  }

  /** The loop of subtitle_parser.py:40-51: each subtitle file is cleaned and
      tokenized (`tokens`) and its words are added to the counter. `counts` is
      the Counter and `order` its key order, the order in which `items()`
      lists the words. */
  method Run(files: seq<Document>, tokens: Document -> seq<string>) returns (counts: Counts, order: seq<string>)
    ensures counts == Frequencies(TokenLists(files, tokens))
    ensures order == KeyOrder(TokenLists(files, tokens))
  {
    counts := map[];
    order := [];
    var i := 0;
    assert files[..0] == [];
    assert TokenLists([], tokens) == [];
    while i < |files|
      invariant 0 <= i <= |files|
      invariant counts == Frequencies(TokenLists(files[..i], tokens))
      invariant order == KeyOrder(TokenLists(files[..i], tokens))
    {
      var d := files[i];
      CounterStep(files, i, tokens);
      if IsSubtitle(d) {
        var words := tokens(d);
        counts := Update(counts, words);
        order := Seen(order, words);
      }
      i := i + 1;
    }
    assert files[..|files|] == files;
  }

  /** Every word of the token lists passes the token filter. */
  lemma {:induction false} FlattenKeeps(docs: seq<seq<string>>, stopwords: set<string>)
    requires forall i, j | 0 <= i < |docs| && 0 <= j < |docs[i]| :: Keeps(docs[i][j], stopwords)
    ensures forall k | 0 <= k < |Flatten(docs)| :: Keeps(Flatten(docs)[k], stopwords)
  {
    if docs != [] {
      FlattenKeeps(docs[1..], stopwords);
      var f := Flatten(docs);
      forall k | 0 <= k < |f| ensures Keeps(f[k], stopwords) {
        if k >= |docs[0]| {
          assert f[k] == Flatten(docs[1..])[k - |docs[0]|];
        } else {
          assert f[k] == docs[0][k];
        }
      }
    }
  }

  /** Every counted word passes the token filter: it is no stopword, its
      stripped length is above 1, and so it is not blank. */
  lemma CountedWordsKept(files: seq<Document>, tokens: Document -> seq<string>, stopwords: set<string>)
    requires KeepsAll(tokens, stopwords)
    ensures forall w | w in Frequencies(TokenLists(files, tokens)) :: Keeps(w, stopwords) && !Blank(w)
  {
    var docs := TokenLists(files, tokens);
    CountedWords(docs);
    TokenListsFromSubtitles(files, tokens);
    forall i, j | 0 <= i < |docs| && 0 <= j < |docs[i]| ensures Keeps(docs[i][j], stopwords) {
      assert FromSubtitle(files, tokens, docs[i]);
    }
    FlattenKeeps(docs, stopwords);
    forall w | w in Frequencies(docs) ensures Keeps(w, stopwords) && !Blank(w) {
      var k :| 0 <= k < |Flatten(docs)| && Flatten(docs)[k] == w;
      assert Strip(w) != [];
    }
  }

  lemma {:induction false} TokenListsPermutation(a: seq<Document>, b: seq<Document>, tokens: Document -> seq<string>)
    requires multiset(a) == multiset(b)
    ensures multiset(TokenLists(a, tokens)) == multiset(TokenLists(b, tokens))
    decreases |a|
  {
    if a == [] {
      assert |b| == |multiset(b)| == 0;
    } else {
      var i := PickOut(a, b);
      var b' := b[..i] + b[i + 1..];
      TokenListsPermutation(a[1..], b', tokens);
      assert a == [a[0]] + a[1..];
      TokenListsAppend([a[0]], a[1..], tokens);
      Pivot(b, i);
      TokenListsAppend(b[..i], [b[i]] + b[i + 1..], tokens);
      TokenListsAppend([b[i]], b[i + 1..], tokens);
      TokenListsAppend(b[..i], b[i + 1..], tokens);
    }
  }

  /** The counts do not depend on the order in which the directory lists the
      files (which the platform decides). */
  lemma FileOrderIrrelevant(a: seq<Document>, b: seq<Document>, tokens: Document -> seq<string>)
    requires multiset(a) == multiset(b)
    ensures Frequencies(TokenLists(a, tokens)) == Frequencies(TokenLists(b, tokens))
  {
    TokenListsPermutation(a, b, tokens);
    OrderIndependent(TokenLists(a, tokens), TokenLists(b, tokens));
  }

  /** Listing the counter in key order and sorting it gives a top report. */
  lemma CounterReport(docs: seq<seq<string>>)
    ensures IsTopReport(Frequencies(docs), TopWords(SortDesc(Items(Frequencies(docs), KeyOrder(docs)))))
  {
    var counts, order := Frequencies(docs), KeyOrder(docs);
    FrequenciesCount(docs);
    KeyOrderCount(docs);
    CountedWords(docs);
    ItemsListing(counts, order);
    var items := Items(counts, order);
    ListingPermutation(counts, items, SortDesc(items));
    TopWordsIsReport(counts, SortDesc(items));
  }

  /** The whole script: count the words of every subtitle file, list the
      counter, sort by frequency, drop blank words, keep the first 2000.
      Every counted word is non-blank, so a word is missing from the report
      only when 2000 words at least as frequent fill it. */
  method WordReport(files: seq<Document>, cjk: set<char>, stopwords: set<string>,
                    analyze: string -> seq<string>) returns (report: seq<Row>)
    ensures IsTopReport(Frequencies(TokenLists(files, FileTokenizer(cjk, stopwords, analyze))), report)
    ensures Complete(Frequencies(TokenLists(files, FileTokenizer(cjk, stopwords, analyze))), report)
  {
    var tokens := FileTokenizer(cjk, stopwords, analyze);
    var counts, order := Run(files, tokens);
    var sorted := SortDesc(Items(counts, order));
    report := TopWords(sorted);
    CounterReport(TokenLists(files, tokens));
    CountedWordsKept(files, tokens, stopwords);
    TopReportWithoutBlanks(counts, report);
  }
}
