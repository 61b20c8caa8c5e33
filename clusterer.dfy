/** The discrete part of `GNTClusterer`: stop-word cleaning, the clamps on
    the number of PCA components and K-means clusters, the `clusterize` frame,
    the short-circuit for small corpora and the final grouping of the rows by
    ground-truth label. TF-IDF, PCA and K-means themselves are the numeric
    collaborators in `Numerics`. */
module GntClusterer {
  import opened Wrappers
  import opened PyStrings

  // ---------------------------------------------------------------------
  // clean

  /** The words of `ws` that are not stop words, in their order */
  function Kept(ws: seq<string>, stopWords: seq<string>): (r: seq<string>)
    ensures |r| <= |ws|
  {
    if ws == [] then []
    else (if ws[0] in stopWords then [] else [ws[0]]) + Kept(ws[1..], stopWords)
  }

  /** The kept words are exactly the words that are not stop words. */
  lemma {:induction false} KeptMembers(ws: seq<string>, stopWords: seq<string>)
    ensures forall w :: w in Kept(ws, stopWords) <==> w in ws && w !in stopWords
  {
    if ws != [] {
      assert ws == [ws[0]] + ws[1..];
      KeptMembers(ws[1..], stopWords);
    }
  }

  lemma {:induction false} KeptSnoc(ws: seq<string>, w: string, stopWords: seq<string>)
    ensures Kept(ws + [w], stopWords) == Kept(ws, stopWords) + (if w in stopWords then [] else [w])
  {
    if ws == [] {
      assert ws + [w] == [w];
      assert [w][1..] == [];
    } else {
      assert (ws + [w])[1..] == ws[1..] + [w];
      KeptSnoc(ws[1..], w, stopWords);
    }
  }

  /** Filtering words none of which is a stop word keeps them all. */
  lemma {:induction false} KeptAll(ws: seq<string>, stopWords: seq<string>)
    requires forall w :: w in ws ==> w !in stopWords
    ensures Kept(ws, stopWords) == ws
  {
    if ws != [] {
      assert ws[0] in ws;
      assert forall w :: w in ws[1..] ==> w in ws;
      KeptAll(ws[1..], stopWords);
      assert [ws[0]] + ws[1..] == ws;
    }
  }

  /** What `clean` makes of one text: its `" "`-separated words without the
      stop words, joined by single spaces, surrounding whitespace stripped,
      so that it neither starts nor ends with whitespace. */
  function CleanText(text: string, stopWords: seq<string>): (r: string)
    ensures Trimmed(r)
  {
    var joined := Join(Kept(Split(text, ' '), stopWords), " ");
    StripEnds(joined);
    Strip(joined)
  }

  /** `clean` applied to a whole corpus, for use in specifications */
  function CleanCorpus(textCorpus: seq<string>, stopWords: seq<string>): seq<string> {
    seq(|textCorpus|, i requires 0 <= i < |textCorpus| => CleanText(textCorpus[i], stopWords))
  }

  /** The string `clean` accumulates for one text before stripping it:
      a space in front of every kept word. */
  function Spaced(ws: seq<string>): string {
    if ws == [] then "" else " " + Join(ws, " ")
  }

  lemma SpacedSnoc(ws: seq<string>, w: string)
    ensures Spaced(ws + [w]) == Spaced(ws) + " " + w
  {
    if ws == [] {
      assert ws + [w] == [w];
    } else {
      JoinSnoc(ws, w, " ");
    }
  }

  lemma LStripSpace(s: string)
    ensures LStrip(" " + s) == LStrip(s)
  {
    assert (" " + s)[1..] == s;
  }

  lemma RStripSpace(s: string)
    ensures RStrip(s + " ") == RStrip(s)
  {
    assert (s + " ")[..|s|] == s;
  }

  /** The leading space `clean` puts in front of the first word is stripped. */
  lemma SpacedStrip(ws: seq<string>)
    ensures Strip(Spaced(ws)) == Strip(Join(ws, " "))
  {
    if ws != [] {
      LStripSpace(Join(ws, " "));
    }
  }

  /** The body of the outer loop of `GNTClusterer.clean`: the words of one
      text kept one by one, each after a space, and the result stripped. */
  method CleanDocument(text: string, stopWords: seq<string>) returns (cleaned: string)
    ensures cleaned == CleanText(text, stopWords)
  {
    var words := Split(text, ' ');
    var cleanText := "";
    for k := 0 to |words|
      invariant cleanText == Spaced(Kept(words[..k], stopWords))
    {
      var word := words[k];
      assert words[..k + 1] == words[..k] + [word];
      KeptSnoc(words[..k], word, stopWords);
      if word !in stopWords {
        assert Kept(words[..k + 1], stopWords) == Kept(words[..k], stopWords) + [word];
        SpacedSnoc(Kept(words[..k], stopWords), word);
        cleanText := cleanText + " " + word;
      } else {
        assert Kept(words[..k + 1], stopWords) == Kept(words[..k], stopWords);
      }
    }
    assert words[..|words|] == words;
    SpacedStrip(Kept(words, stopWords));
    cleaned := Strip(cleanText);
  }

  /** `GNTClusterer.clean`: one cleaned text per input text, text `i` of the
      result depending on text `i` of the input only. */
  method Clean(textCorpus: seq<string>, stopWords: seq<string>) returns (cleanCorpus: seq<string>)
    ensures |cleanCorpus| == |textCorpus|
    ensures forall i :: 0 <= i < |textCorpus| ==> cleanCorpus[i] == CleanText(textCorpus[i], stopWords)
  {
    // The loop builds the prefixes of `expected`, so that the invariant does
    // not speak of `CleanText` and the verifier does not unfold it here.
    ghost var expected := CleanCorpus(textCorpus, stopWords);
    cleanCorpus := [];
    for i := 0 to |textCorpus|
      invariant cleanCorpus == expected[..i]
    {
      var cleanText := CleanDocument(textCorpus[i], stopWords);
      assert cleanText == expected[i];
      PrefixSnoc(expected, i);
      cleanCorpus := cleanCorpus + [cleanText];
    }
    assert cleanCorpus == expected;
  }

  /** The prefix of length `i + 1` is the prefix of length `i` and entry `i`. */
  lemma PrefixSnoc<T>(s: seq<T>, i: nat)
    requires i < |s|
    ensures s[..i + 1] == s[..i] + [s[i]]
  {
  }

  // Stripping a join of whitespace-free words removes the empty words at
  // both ends (each of them only contributes a separating space).

  function DropLeadingEmpty(ws: seq<string>): (r: seq<string>)
    ensures |r| <= |ws| && r == ws[|ws| - |r|..]
    ensures r == [] || r[0] != ""
  {
    if ws != [] && ws[0] == "" then DropLeadingEmpty(ws[1..]) else ws
  }

  function DropTrailingEmpty(ws: seq<string>): (r: seq<string>)
    ensures |r| <= |ws| && r == ws[..|r|]
    ensures r == [] || r[|r| - 1] != ""
  {
    if ws != [] && ws[|ws| - 1] == "" then DropTrailingEmpty(ws[..|ws| - 1]) else ws
  }

  function TrimEmpty(ws: seq<string>): seq<string> {
    DropTrailingEmpty(DropLeadingEmpty(ws))
  }

  lemma {:induction false} LStripJoin(ws: seq<string>)
    requires forall w :: w in ws ==> NoSpace(w)
    ensures LStrip(Join(ws, " ")) == Join(DropLeadingEmpty(ws), " ")
  {
    if ws == [] {
    } else if ws[0] == "" {
      assert forall w :: w in ws[1..] ==> w in ws;
      if |ws| == 1 {
        assert ws[1..] == [];
      } else {
        assert Join(ws, " ") == " " + Join(ws[1..], " ");
        LStripSpace(Join(ws[1..], " "));
        LStripJoin(ws[1..]);
      }
    } else {
      var s := Join(ws, " ");
      assert ws[0] in ws;
      assert s[0] == ws[0][0];
      assert ws[0][0] in ws[0];
    }
  }

  lemma {:induction false} RStripJoin(ws: seq<string>)
    requires forall w :: w in ws ==> NoSpace(w)
    ensures RStrip(Join(ws, " ")) == Join(DropTrailingEmpty(ws), " ")
  {
    if ws != [] {
      var n := |ws|;
      var init, last := ws[..n - 1], ws[n - 1];
      assert ws == init + [last];
      assert forall w :: w in init ==> w in ws;
      assert last in ws;
      if last == "" {
        if n > 1 {
          JoinSnoc(init, last, " ");
          assert Join(ws, " ") == Join(init, " ") + " ";
          RStripSpace(Join(init, " "));
          RStripJoin(init);
        }
      } else {
        var s := Join(ws, " ");
        JoinEnd(init, last);
        assert last[|last| - 1] in last;
        assert !IsSpace(s[|s| - 1]);
      }
    }
  }

  /** A join ends with the end of its last word. */
  lemma JoinEnd(init: seq<string>, last: string)
    requires last != ""
    ensures var s := Join(init + [last], " "); s != [] && s[|s| - 1] == last[|last| - 1]
  {
    if init == [] {
      assert init + [last] == [last];
    } else {
      JoinSnoc(init, last, " ");
    }
  }

  lemma StripJoin(ws: seq<string>)
    requires forall w :: w in ws ==> NoSpace(w)
    ensures Strip(Join(ws, " ")) == Join(TrimEmpty(ws), " ")
  {
    LStripJoin(ws);
    var d := DropLeadingEmpty(ws);
    assert forall w :: w in d ==> w in ws;
    RStripJoin(d);
  }

  lemma TrimEmptyStable(ws: seq<string>)
    ensures TrimEmpty(TrimEmpty(ws)) == TrimEmpty(ws)
  {
    var d := DropLeadingEmpty(ws);
    var t := DropTrailingEmpty(d);
    if t != [] {
      assert t[0] == d[0];
    }
  }

  /** `text` uses no whitespace other than the plain space */
  predicate PlainSpaced(text: string) {
    forall c :: c in text ==> IsSpace(c) ==> c == ' '
  }

  /** For a text whose only whitespace is the plain space, cleaning gives the
      kept words, without the empty words at either end, joined by single
      spaces. */
  lemma CleanTextTrimmed(text: string, stopWords: seq<string>)
    requires PlainSpaced(text)
    ensures CleanText(text, stopWords) == Join(TrimEmpty(Kept(Split(text, ' '), stopWords)), " ")
    ensures forall w :: w in TrimEmpty(Kept(Split(text, ' '), stopWords)) ==> w !in stopWords && ' ' !in w && NoSpace(w)
  {
    var ws := Split(text, ' ');
    var kept := Kept(ws, stopWords);
    SplitPieces(text, ' ');
    KeptMembers(ws, stopWords);
    forall w | w in kept
      ensures NoSpace(w)
    {
      forall ch | ch in w
        ensures !IsSpace(ch)
      {
        SplitChars(text, ' ', w, ch);
      }
    }
    StripJoin(kept);
    var d := DropLeadingEmpty(kept);
    assert forall w :: w in d ==> w in kept;
    var t := DropTrailingEmpty(d);
    assert forall w :: w in t ==> w in d;
  }

  /** Cleaning twice with the same stop words is cleaning once, for texts
      whose only whitespace is the plain space. */
  lemma CleanTextIdempotent(text: string, stopWords: seq<string>)
    requires PlainSpaced(text)
    ensures CleanText(CleanText(text, stopWords), stopWords) == CleanText(text, stopWords)
  {
    CleanTextTrimmed(text, stopWords);
    var t := TrimEmpty(Kept(Split(text, ' '), stopWords));
    if t == [] {
      assert Split("", ' ') == [""];
      assert Kept([""], stopWords) == [] || Kept([""], stopWords) == [""];
    } else {
      var j := Join(t, " ");
      assert Split(j, ' ') == t by {
        SplitJoin(t, ' ');
      }
      assert Kept(t, stopWords) == t by {
        KeptAll(t, stopWords);
      }
      assert Strip(j) == j by {
        StripJoin(t);
        TrimEmptyStable(Kept(Split(text, ' '), stopWords));
      }
      assert CleanText(j, stopWords) == Strip(Join(Kept(Split(j, ' '), stopWords), " "));
    }
  }

  /** Cleaning a text made of non-empty, whitespace-free words separated by
      single spaces drops exactly the stop words. */
  lemma CleanWords(ws: seq<string>, stopWords: seq<string>)
    requires forall w :: w in ws ==> w != "" && NoSpace(w)
    ensures CleanText(Join(ws, " "), stopWords) == Join(Kept(ws, stopWords), " ")
  {
    if ws == [] {
      assert Split("", ' ') == [""];
    } else {
      assert IsSpace(' ');
      SplitJoin(ws, ' ');
      var kept := Kept(ws, stopWords);
      KeptMembers(ws, stopWords);
      StripJoin(kept);
      if kept != [] {
        assert kept[0] in kept && kept[|kept| - 1] in kept;
      }
    }
  }

  /** A three-word text whose middle word is a stop word loses that word,
      as in the test suite's `"titi is tall"` becoming `"titi tall"`. */
  lemma CleanDropsMiddle(first: string, middle: string, last: string, stopWords: seq<string>)
    requires first != "" && NoSpace(first) && first !in stopWords
    requires last != "" && NoSpace(last) && last !in stopWords
    requires middle != "" && NoSpace(middle) && middle in stopWords
    ensures CleanText(first + " " + middle + " " + last, stopWords) == first + " " + last
  {
    var ws := [first, middle, last];
    JoinThree(first, middle, last);
    CleanWords(ws, stopWords);
    KeptMiddle(first, middle, last, stopWords);
    JoinTwo(first, last);
  }

  lemma JoinThree(a: string, b: string, c: string)
    ensures Join([a, b, c], " ") == a + " " + b + " " + c
  {
    var ws := [a, b, c];
    assert Join(ws[2..], " ") == c;
    assert Join(ws[1..], " ") == b + " " + c;
  }

  lemma JoinTwo(a: string, c: string)
    ensures Join([a, c], " ") == a + " " + c
  {
    assert [a, c][1..] == [c];
  }

  /** Filtering three words whose middle one only is a stop word */
  lemma KeptMiddle(first: string, middle: string, last: string, stopWords: seq<string>)
    requires first !in stopWords && middle in stopWords && last !in stopWords
    ensures Kept([first, middle, last], stopWords) == [first, last]
  {
    var ws := [first, middle, last];
    assert ws[1..][1..] == [last];
    assert Kept([last], stopWords) == [last];
    assert Kept(ws[1..], stopWords) == [last];
  }

  // ---------------------------------------------------------------------
  // The numeric collaborators and the clamps in reduce and clusterize

  /** A dense numeric frame: one row per document */
  type Matrix = seq<seq<real>>

  /** scikit-learn's `TfidfVectorizer`, `PCA(n_components=k).fit_transform`
      and `KMeans(n_clusters=k).fit(...).labels_`, which the model does not
      compute. */
  datatype Numerics = Numerics(
    tfIdf: seq<string> -> Matrix,
    pca: (Matrix, nat) -> Matrix,
    kMeans: (Matrix, nat) -> seq<nat>)
  {
    /** The shapes the library returns: one row per input row; PCA asked for
        at most as many components as there are rows gives that many columns;
        K-means asked for between one cluster and as many clusters as rows
        gives every row a cluster id below that count. */
    ghost predicate Valid() {
      (forall texts :: |tfIdf(texts)| == |texts|) &&
      (forall m, k: nat | k <= |m| :: |pca(m, k)| == |m| &&
         forall i | 0 <= i < |m| :: |pca(m, k)[i]| == k) &&
      (forall m, k: nat | 1 <= k <= |m| :: |kMeans(m, k)| == |m| &&
         forall i | 0 <= i < |m| :: kMeans(m, k)[i] < k)
    }
  }

  /** `min(a, b)` */
  function Min(a: int, b: int): int {
    if a <= b then a else b
  }

  /** `GNTClusterer.reduce`: PCA with the requested dimension clamped to the
      number of rows. */
  function Reduce(numerics: Numerics, dataframe: Matrix, dimension: nat): (r: Matrix)
    requires numerics.Valid()
    ensures |r| == |dataframe|
    ensures forall i :: 0 <= i < |r| ==> |r[i]| <= dimension && |r[i]| <= |dataframe|
    ensures forall i :: 0 <= i < |r| ==> |r[i]| == dimension || |r[i]| == |dataframe|
  {
    numerics.pca(dataframe, Min(dimension, |dataframe|))
  }

  /** After the short-circuit the corpus has at least three rows, so the
      display reduction has exactly the three columns that are then named
      x, y and z. */
  lemma DisplayHasThreeColumns(numerics: Numerics, reduced: Matrix)
    requires numerics.Valid()
    requires |reduced| >= 3
    ensures forall i :: 0 <= i < |reduced| ==> |Reduce(numerics, reduced, 3)[i]| == 3
  {
  }

  /** The errors `pipeline` lets escape */
  datatype PipelineError =
    | InvalidClusterCount   // KMeans asked for fewer than one cluster
    | LengthMismatch        // a DataFrame built from columns of different lengths
    | MissingGroundTruth    // `clustered_data.ground_truth` on a frame without that column

  /** Python truthiness of an optional list */
  predicate TruthyList(l: Option<seq<string>>) {
    l.Some? && |l.value| > 0
  }

  /** The frame `clusterize` returns: columns label and cluster, and
      ground_truth only when one was given. */
  datatype ClusterFrame = ClusterFrame(labels: seq<string>, cluster: seq<nat>, groundTruth: Option<seq<string>>)

  /** `GNTClusterer.clusterize`: K-means with the requested cluster count
      clamped to the number of rows, then the result frame. */
  function Clusterize(numerics: Numerics, dataframe: Matrix, name: seq<string>, nCluster: int,
                      groundTruth: Option<seq<string>>): (r: Result<ClusterFrame, PipelineError>)
    requires numerics.Valid()
    ensures r.Failure? <==> Min(nCluster, |dataframe|) < 1 || |name| != |dataframe| ||
                            (TruthyList(groundTruth) && |groundTruth.value| != |dataframe|)
    ensures r.Failure? && Min(nCluster, |dataframe|) < 1 ==> r.error == InvalidClusterCount
    ensures r.Failure? && Min(nCluster, |dataframe|) >= 1 ==> r.error == LengthMismatch
    ensures r.Success? ==> r.value.labels == name && |r.value.cluster| == |dataframe|
    ensures r.Success? ==> forall i :: 0 <= i < |dataframe| ==>
              r.value.cluster[i] < nCluster && r.value.cluster[i] < |dataframe|
    ensures r.Success? ==> (r.value.groundTruth.Some? <==> TruthyList(groundTruth))
    ensures r.Success? && r.value.groundTruth.Some? ==> r.value.groundTruth == groundTruth
  {
    var k := Min(nCluster, |dataframe|);
    if k < 1 then Failure(InvalidClusterCount)
    else
      var labels := numerics.kMeans(dataframe, k);
      if |name| != |dataframe| || (TruthyList(groundTruth) && |groundTruth.value| != |dataframe|) then
        Failure(LengthMismatch)
      else if !TruthyList(groundTruth) then
        Success(ClusterFrame(name, labels, None))
      else
        Success(ClusterFrame(name, labels, groundTruth))
  }

  // ---------------------------------------------------------------------
  // Grouping by ground truth

  /** The display frame `data_3D` with its columns named x, y and z */
  datatype Display = Display(x: seq<real>, y: seq<real>, z: seq<real>)

  /** `data_3D.columns = ["x", "y", "z"]`, defined on three-column frames */
  function NameColumns(m: Matrix): (d: Display)
    requires forall i :: 0 <= i < |m| ==> |m[i]| == 3
    ensures |d.x| == |m| && |d.y| == |m| && |d.z| == |m|
    ensures forall i :: 0 <= i < |m| ==> m[i] == [d.x[i], d.y[i], d.z[i]]
  {
    Display(seq(|m|, i requires 0 <= i < |m| => m[i][0]),
            seq(|m|, i requires 0 <= i < |m| => m[i][1]),
            seq(|m|, i requires 0 <= i < |m| => m[i][2]))
  }

  /** One element of the list `pipeline` returns (its constant
      `markers` entry is not modelled) */
  datatype Projection = Projection(x: seq<real>, y: seq<real>, z: seq<real>, clusters: seq<nat>,
                                   labels: seq<string>, groundTruth: seq<string>)

  /** `pd.unique`: the distinct values of `s` */
  function Unique(s: seq<string>): (r: seq<string>)
    ensures forall v :: v in r <==> v in s
    ensures forall i, j :: 0 <= i < j < |r| ==> r[i] != r[j]
  {
    if s == [] then []
    else
      var u := Unique(s[..|s| - 1]);
      assert s == s[..|s| - 1] + [s[|s| - 1]];
      if s[|s| - 1] in u then u else u + [s[|s| - 1]]
  }

  /** The position of the first occurrence of `v` in `s` */
  function FirstIndex(s: seq<string>, v: string): (k: nat)
    requires v in s
    ensures k < |s| && s[k] == v
    ensures forall j :: 0 <= j < k ==> s[j] != v
  {
    if s[0] == v then 0 else 1 + FirstIndex(s[1..], v)
  }

  lemma {:induction false} FirstIndexSnoc(s: seq<string>, x: string, v: string)
    requires v in s
    ensures FirstIndex(s + [x], v) == FirstIndex(s, v)
  {
    if s[0] != v {
      assert (s + [x])[1..] == s[1..] + [x];
      FirstIndexSnoc(s[1..], x, v);
    }
  }

  /** `pd.unique` lists the values in the order of their first occurrence. */
  lemma {:induction false} UniqueFirstSeen(s: seq<string>)
    ensures forall i, j :: 0 <= i < j < |Unique(s)| ==>
              FirstIndex(s, Unique(s)[i]) < FirstIndex(s, Unique(s)[j])
  {
    if s != [] {
      var init, x := s[..|s| - 1], s[|s| - 1];
      assert s == init + [x];
      UniqueFirstSeen(init);
      var u := Unique(init);
      forall v | v in init
        ensures FirstIndex(s, v) == FirstIndex(init, v)
      {
        FirstIndexSnoc(init, x, v);
      }
      if x in u {
        assert Unique(s) == u;
      } else {
        assert Unique(s) == u + [x];
        assert FirstIndex(s, x) == |init| by {
          FirstIndexAfter(init, x);
        }
        forall i | 0 <= i < |u|
          ensures FirstIndex(s, u[i]) < FirstIndex(s, x)
        {
          assert u[i] in init;
        }
      }
    }
  }

  /** An element missing from `s` is first found right after it. */
  lemma {:induction false} FirstIndexAfter(s: seq<string>, x: string)
    requires x !in s
    ensures FirstIndex(s + [x], x) == |s|
  {
    if s != [] {
      assert (s + [x])[1..] == s[1..] + [x];
      FirstIndexAfter(s[1..], x);
    }
  }

  /** The boolean mask `ground_truth == value`, as the increasing list of the
      rows where it holds */
  function Where(s: seq<string>, value: string): (r: seq<nat>)
    ensures forall k :: 0 <= k < |r| ==> r[k] < |s| && s[r[k]] == value
    ensures forall a, b :: 0 <= a < b < |r| ==> r[a] < r[b]
  {
    if s == [] then []
    else Where(s[..|s| - 1], value) + (if s[|s| - 1] == value then [|s| - 1] else [])
  }

  /** The mask selects exactly the rows having the value. */
  lemma {:induction false} WhereMembers(s: seq<string>, value: string)
    ensures forall i: nat :: i in Where(s, value) <==> i < |s| && s[i] == value
  {
    if s != [] {
      var n := |s| - 1;
      var init := s[..n];
      WhereMembers(init, value);
      assert Where(s, value) == Where(init, value) + (if s[n] == value then [n] else []);
      forall i: nat ensures i in Where(s, value) <==> i < |s| && s[i] == value {
        if i < n {
          assert init[i] == s[i];
        }
      }
    }
  }

  /** The mask selects as many rows as the value occurs. */
  lemma {:induction false} WhereCount(s: seq<string>, value: string)
    ensures |Where(s, value)| == multiset(s)[value]
  {
    if s != [] {
      var n := |s| - 1;
      var init := s[..n];
      assert s == init + [s[n]];
      assert multiset(s) == multiset(init) + multiset{s[n]};
      WhereCount(init, value);
    }
  }

  /** The mask selects exactly the rows having the value, as many as the
      value occurs. */
  lemma WhereExact(s: seq<string>, value: string)
    ensures forall i: nat :: i in Where(s, value) <==> i < |s| && s[i] == value
    ensures |Where(s, value)| == multiset(s)[value]
  {
    WhereMembers(s, value);
    WhereCount(s, value);
  }

  /** The values at the given rows */
  function Pick<T>(values: seq<T>, rows: seq<nat>): seq<T>
    requires forall k :: 0 <= k < |rows| ==> rows[k] < |values|
  {
    seq(|rows|, k requires 0 <= k < |rows| => values[rows[k]])
  }

  /** The cluster frame has its ground-truth column and all columns of both
      frames have the same length */
  predicate Aligned(frame: ClusterFrame, display: Display) {
    frame.groundTruth.Some? &&
    |frame.cluster| == |frame.labels| && |frame.groundTruth.value| == |frame.labels| &&
    |display.x| == |frame.labels| && |display.y| == |frame.labels| && |display.z| == |frame.labels|
  }

  /** The record for one ground-truth value: every column restricted to the
      rows having that value, so that all six are as long as the mask */
  function GroupRecord(frame: ClusterFrame, display: Display, value: string): (r: Projection)
    requires Aligned(frame, display)
    ensures var n := |Where(frame.groundTruth.value, value)|;
      |r.x| == n && |r.y| == n && |r.z| == n && |r.clusters| == n && |r.labels| == n && |r.groundTruth| == n
  {
    var rows := Where(frame.groundTruth.value, value);
    Projection(Pick(display.x, rows), Pick(display.y, rows), Pick(display.z, rows),
               Pick(frame.cluster, rows), Pick(frame.labels, rows), Pick(frame.groundTruth.value, rows))
  }

  /** All records, one per distinct ground-truth value */
  function Assemble(frame: ClusterFrame, display: Display): (r: seq<Projection>)
    requires Aligned(frame, display)
    ensures |r| == |Unique(frame.groundTruth.value)|
  {
    var values := Unique(frame.groundTruth.value);
    seq(|values|, k requires 0 <= k < |values| => GroupRecord(frame, display, values[k]))
  }

  /** The loop at the end of `pipeline` that builds `projections` */
  method GroupByGroundTruth(clusteredData: ClusterFrame, data3D: Display) returns (projections: seq<Projection>)
    requires Aligned(clusteredData, data3D)
    ensures projections == Assemble(clusteredData, data3D)
  {
    var values := Unique(clusteredData.groundTruth.value);
    projections := [];
    for k := 0 to |values|
      invariant |projections| == k
      invariant forall j :: 0 <= j < k ==> projections[j] == GroupRecord(clusteredData, data3D, values[j])
    {
      projections := projections + [GroupRecord(clusteredData, data3D, values[k])];
    }
  }

  /** Record `k` belongs to the `k`-th distinct ground-truth value: its six
      columns are equally long, as long as that value is frequent, which is
      at least once, and its ground-truth column holds that value only. */
  lemma RecordValue(frame: ClusterFrame, display: Display, k: nat)
    requires Aligned(frame, display)
    requires k < |Unique(frame.groundTruth.value)|
    ensures var gt := frame.groundTruth.value;
      var r, v := Assemble(frame, display)[k], Unique(gt)[k];
      var n := multiset(gt)[v];
      n > 0 && |r.x| == n && |r.y| == n && |r.z| == n && |r.clusters| == n && |r.labels| == n &&
      |r.groundTruth| == n && forall p :: 0 <= p < n ==> r.groundTruth[p] == v
  {
    var gt := frame.groundTruth.value;
    var v := Unique(gt)[k];
    assert v in Unique(gt);
    var i :| 0 <= i < |gt| && gt[i] == v;
    WhereExact(gt, v);
    assert i in Where(gt, v);
  }

  /** One record per distinct ground-truth value, in the order `pd.unique`
      lists them; each record is non-empty and holds its value only. */
  lemma AssembleGroups(frame: ClusterFrame, display: Display)
    requires Aligned(frame, display)
    ensures var gt, a := frame.groundTruth.value, Assemble(frame, display);
      |a| == |Unique(gt)| &&
      forall k :: 0 <= k < |a| ==>
        |a[k].groundTruth| > 0 && forall p :: 0 <= p < |a[k].groundTruth| ==> a[k].groundTruth[p] == Unique(gt)[k]
  {
    forall k | 0 <= k < |Unique(frame.groundTruth.value)| {
      RecordValue(frame, display, k);
    }
  }

  /** Record `k` is taken from the rows `Where(gt, v)` of its value `v`:
      those are exactly the rows having `v`, in their original order, and
      entry `p` of each column of the record is that column's entry in row
      `Where(gt, v)[p]`. */
  lemma RecordRows(frame: ClusterFrame, display: Display, k: nat)
    requires Aligned(frame, display)
    requires k < |Assemble(frame, display)|
    ensures var gt := frame.groundTruth.value;
      var v, r := Unique(gt)[k], Assemble(frame, display)[k];
      var rows := Where(gt, v);
      |r.labels| == |rows| &&
      (forall i: nat :: i in rows <==> i < |gt| && gt[i] == v) &&
      (forall p, q :: 0 <= p < q < |rows| ==> rows[p] < rows[q]) &&
      (forall p :: 0 <= p < |rows| ==>
         gt[rows[p]] == v && r.labels[p] == frame.labels[rows[p]] && r.clusters[p] == frame.cluster[rows[p]] &&
         r.x[p] == display.x[rows[p]] && r.y[p] == display.y[rows[p]] && r.z[p] == display.z[rows[p]])
  {
    var gt := frame.groundTruth.value;
    WhereMembers(gt, Unique(gt)[k]);
  }

  /** The pieces of `column` for the values of `values`, one after the other */
  function GroupedColumn<T>(column: seq<T>, gt: seq<string>, values: seq<string>): seq<T>
    requires |column| == |gt|
  {
    if values == [] then []
    else Pick(column, Where(gt, values[0])) + GroupedColumn(column, gt, values[1..])
  }

  /** Adding a row adds its entry to the piece of its value. */
  lemma PickWhereSnoc<T>(column: seq<T>, gt: seq<string>, y: T, x: string, v: string)
    requires |column| == |gt|
    ensures Pick(column + [y], Where(gt + [x], v)) == Pick(column, Where(gt, v)) + (if x == v then [y] else [])
  {
    var g' := gt + [x];
    assert g'[..|g'| - 1] == gt;
  }

  lemma {:induction false} GroupedGrow<T>(column: seq<T>, gt: seq<string>, y: T, x: string, values: seq<string>)
    requires |column| == |gt|
    requires forall i, j :: 0 <= i < j < |values| ==> values[i] != values[j]
    ensures multiset(GroupedColumn(column + [y], gt + [x], values))
         == multiset(GroupedColumn(column, gt, values)) + (if x in values then multiset{y} else multiset{})
  {
    if values != [] {
      var v, rest := values[0], values[1..];
      var piece, tail := Pick(column, Where(gt, v)), GroupedColumn(column, gt, rest);
      var tail' := GroupedColumn(column + [y], gt + [x], rest);
      assert Pick(column + [y], Where(gt + [x], v)) == piece + (if x == v then [y] else []) by {
        PickWhereSnoc(column, gt, y, x, v);
      }
      assert multiset(tail') == multiset(tail) + (if x in rest then multiset{y} else multiset{}) by {
        GroupedGrow(column, gt, y, x, rest);
      }
      assert x in values <==> x == v || x in rest by {
        assert values == [v] + rest;
      }
      assert x == v ==> x !in rest by {
        forall j | 0 <= j < |rest|
          ensures rest[j] != v
        {
          assert rest[j] == values[j + 1];
        }
      }
      GrowStep(piece, tail, tail', y, x == v, x in rest);
    }
  }

  /** The multiset arithmetic of one step of `GroupedGrow` */
  lemma GrowStep<T>(piece: seq<T>, tail: seq<T>, tail': seq<T>, y: T, here: bool, later: bool)
    requires multiset(tail') == multiset(tail) + (if later then multiset{y} else multiset{})
    requires !(here && later)
    ensures multiset((piece + (if here then [y] else [])) + tail')
         == multiset(piece + tail) + (if here || later then multiset{y} else multiset{})
  {
  }

  lemma {:induction false} GroupedSnoc<T>(column: seq<T>, gt: seq<string>, values: seq<string>, v: string)
    requires |column| == |gt|
    ensures GroupedColumn(column, gt, values + [v]) == GroupedColumn(column, gt, values) + Pick(column, Where(gt, v))
  {
    if values == [] {
      assert ([v])[1..] == [];
    } else {
      assert (values + [v])[1..] == values[1..] + [v];
      GroupedSnoc(column, gt, values[1..], v);
    }
  }

  /** Concatenating the pieces of a column, value by value in the order of
      `pd.unique`, gives back the column's entries, each exactly as often as
      in the column: no row is lost or duplicated. */
  lemma {:induction false} GroupsPermute<T>(column: seq<T>, gt: seq<string>)
    requires |column| == |gt|
    ensures multiset(GroupedColumn(column, gt, Unique(gt))) == multiset(column)
  {
    if gt != [] {
      var n := |gt| - 1;
      var c, g, y, x := column[..n], gt[..n], column[n], gt[n];
      assert column == c + [y] && gt == g + [x];
      var u := Unique(g);
      GroupsPermute(c, g);
      GroupedGrow(c, g, y, x, u);
      if x in u {
        assert Unique(gt) == u;
      } else {
        assert Unique(gt) == u + [x];
        GroupedNewValue(c, g, y, x, u);
      }
    }
  }

  /** A row with a value not seen before adds a piece of its own at the end. */
  lemma GroupedNewValue<T>(c: seq<T>, g: seq<string>, y: T, x: string, u: seq<string>)
    requires |c| == |g| && x !in g
    ensures GroupedColumn(c + [y], g + [x], u + [x]) == GroupedColumn(c + [y], g + [x], u) + [y]
  {
    GroupedSnoc(c + [y], g + [x], u, x);
    PickWhereSnoc(c, g, y, x, x);
    assert Where(g, x) == [] by {
      WhereExact(g, x);
    }
  }

  /** `0, 1, ..., n - 1` */
  function Range(n: nat): seq<nat> {
    seq(n, i requires 0 <= i < n => i)
  }

  /** The labels of the records, concatenated in record order */
  function AllLabels(records: seq<Projection>): seq<string> {
    if records == [] then [] else records[0].labels + AllLabels(records[1..])
  }

  /** The rows of the groups of `values`, concatenated */
  function AllRows(gt: seq<string>, values: seq<string>): seq<nat> {
    if values == [] then [] else Where(gt, values[0]) + AllRows(gt, values[1..])
  }

  lemma {:induction false} AllLabelsGrouped(frame: ClusterFrame, display: Display, values: seq<string>)
    requires Aligned(frame, display)
    ensures AllLabels(seq(|values|, k requires 0 <= k < |values| => GroupRecord(frame, display, values[k])))
         == GroupedColumn(frame.labels, frame.groundTruth.value, values)
  {
    if values != [] {
      var a := seq(|values|, k requires 0 <= k < |values| => GroupRecord(frame, display, values[k]));
      assert a[1..] == seq(|values| - 1, k requires 0 <= k < |values| - 1 => GroupRecord(frame, display, values[1..][k]));
      AllLabelsGrouped(frame, display, values[1..]);
    }
  }

  lemma {:induction false} AllRowsGrouped(gt: seq<string>, values: seq<string>)
    ensures AllRows(gt, values) == GroupedColumn(Range(|gt|), gt, values)
  {
    if values != [] {
      AllRowsGrouped(gt, values[1..]);
      assert Pick(Range(|gt|), Where(gt, values[0])) == Where(gt, values[0]);
    }
  }

  /** The records partition the rows: their labels, concatenated in record
      order, are the frame's labels rearranged, and the row numbers of the
      groups are `0, ..., n - 1` rearranged, so every row lands in exactly one
      record. */
  lemma AssemblePartition(frame: ClusterFrame, display: Display)
    requires Aligned(frame, display)
    ensures multiset(AllLabels(Assemble(frame, display))) == multiset(frame.labels)
    ensures var gt := frame.groundTruth.value;
      multiset(AllRows(gt, Unique(gt))) == multiset(Range(|gt|))
  {
    var gt := frame.groundTruth.value;
    AllLabelsGrouped(frame, display, Unique(gt));
    GroupsPermute(frame.labels, gt);
    AllRowsGrouped(gt, Unique(gt));
    GroupsPermute(Range(|gt|), gt);
  }

  // ---------------------------------------------------------------------
  // pipeline

  /** What `pipeline` returns */
  datatype PipelineResult =
    | Degenerate                             // the single dict with empty x, y, z, clusters and labels
    | Grouped(projections: seq<Projection>)  // the list built by the grouping loop
    | Failed(error: PipelineError)           // an exception escaped

  /** The features K-means runs on: the cleaned corpus, vectorized, reduced
      to at most 15 dimensions */
  function Features(numerics: Numerics, stopWords: seq<string>, textCorpus: seq<string>): (m: Matrix)
    requires numerics.Valid()
    ensures |m| == |textCorpus|
  {
    Reduce(numerics, numerics.tfIdf(CleanCorpus(textCorpus, stopWords)), 15)
  }

  /** The display coordinates: the features reduced to three dimensions */
  function Display3D(numerics: Numerics, features: Matrix): (d: Display)
    requires numerics.Valid() && |features| >= 3
    ensures |d.x| == |features| && |d.y| == |features| && |d.z| == |features|
  {
    DisplayHasThreeColumns(numerics, features);
    NameColumns(Reduce(numerics, features, 3))
  }

  /** `GNTClusterer.pipeline` with `STOP_WORDS` passed in as `stopWords` */
  method Pipeline(numerics: Numerics, stopWords: seq<string>, textCorpus: seq<string>, nClusters: int,
                  names: seq<string>, groundTruth: Option<seq<string>>) returns (result: PipelineResult)
    requires numerics.Valid()
    ensures result.Degenerate? <==> |textCorpus| < 3
    ensures |textCorpus| >= 3 ==>
      (result.Failed? <==> nClusters < 1 || |names| != |textCorpus| || !TruthyList(groundTruth) ||
                           |groundTruth.value| != |textCorpus|)
    ensures result.Failed? && nClusters < 1 ==> result.error == InvalidClusterCount
    ensures result.Failed? && nClusters >= 1 && |names| != |textCorpus| ==> result.error == LengthMismatch
    ensures result.Failed? && nClusters >= 1 && |names| == |textCorpus| ==>
      result.error == (if TruthyList(groundTruth) then LengthMismatch else MissingGroundTruth)
    ensures result.Grouped? ==>
      var features := Features(numerics, stopWords, textCorpus);
      |textCorpus| >= 3 && TruthyList(groundTruth) &&
      result.projections == Assemble(
        ClusterFrame(names, numerics.kMeans(features, Min(nClusters, |textCorpus|)), groundTruth),
        Display3D(numerics, features))
  {
    if |textCorpus| < 3 {
      return Degenerate;
    }
    var cleanedCorpus := Clean(textCorpus, stopWords);
    assert cleanedCorpus == CleanCorpus(textCorpus, stopWords);
    var vectorizedMatrix := numerics.tfIdf(cleanedCorpus);
    var reducedVectorizedMatrix := Reduce(numerics, vectorizedMatrix, 15);
    var clustered := Clusterize(numerics, reducedVectorizedMatrix, names, nClusters, groundTruth);
    if clustered.Failure? {
      return Failed(clustered.error);
    }
    var clusteredData := clustered.value;
    var data3D := Display3D(numerics, reducedVectorizedMatrix);
    if clusteredData.groundTruth.None? {
      return Failed(MissingGroundTruth);
    }
    var projections := GroupByGroundTruth(clusteredData, data3D);
    result := Grouped(projections);
  }
}
