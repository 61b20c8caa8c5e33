/** `DataBaseFiller` of the GNT and the LXX back ends, whose modelled code is
    the same: reading the text files of a corpus into `{book, text}` records,
    the list of book names written from them, and the fixed table of book
    classes. The folder listing and the file reads become a sequence of
    files with their names and contents, in the order the glob yields them. */
module DatabaseFiller {
  import opened Wrappers
  import opened PyStrings
  import opened BookClasses

  /** A `*.txt` file of the input folder */
  datatype SourceFile = SourceFile(name: string, content: string)

  /** A record `{"book": book, "text": text}` of `self.texts` */
  datatype BookText = BookText(book: string, text: string)

  /** `file.name.split("-")[1]`, or `None` where that raises `IndexError`,
      which is when the file name has no `-` (see `BookNameFails`) */
  function BookName(fileName: string): (r: Option<string>)
    ensures r.None? <==> Count(fileName, '-') == 0
  {
    var pieces := Split(fileName, '-');
    if |pieces| >= 2 then Some(pieces[1]) else None
  }

  /** The book name is missing exactly when the file name has no `-`, and a
      book name found contains no `-`. */
  lemma BookNameFails(fileName: string)
    ensures BookName(fileName).None? <==> '-' !in fileName
    ensures BookName(fileName).Some? ==> '-' !in BookName(fileName).value
  {
    CountAbsent(fileName, '-');
    SplitPieces(fileName, '-');
    var pieces := Split(fileName, '-');
    if |pieces| >= 2 {
      assert pieces[1] in pieces;
    }
  }

  /** The book name is the second `-`-separated field of the file name, as
      in `61-Mt-morphgnt.txt`. */
  lemma BookNameOf(prefix: string, book: string, rest: string)
    requires '-' !in prefix && '-' !in book && (rest == [] || rest[0] == '-')
    ensures BookName(prefix + "-" + book + rest) == Some(book)
  {
    var tail := "-" + book + rest;
    assert prefix + "-" + book + rest == prefix + tail;
    SplitPrefix(prefix, tail, '-');
    assert tail[1..] == book + rest;
    assert Split(tail, '-') == [""] + Split(book + rest, '-');
    SplitPrefix(book, rest, '-');
    assert Split(rest, '-')[0] == "";
    assert book + "" == book;
  }

  /** `line.split(" ")[-1]`, which holds no space */
  function LastToken(line: string): (r: string)
    ensures Count(r, ' ') == 0
  {
    var pieces := Split(line, ' ');
    SplitPieces(line, ' ');
    assert pieces[|pieces| - 1] in pieces;
    CountAbsent(pieces[|pieces| - 1], ' ');
    pieces[|pieces| - 1]
  }

  /** The last token is the end of the line after its last space, or the
      whole line when it has no space. */
  lemma LastTokenEnds(line: string)
    ensures ' ' !in LastToken(line)
    ensures |LastToken(line)| <= |line| && line[|line| - |LastToken(line)|..] == LastToken(line)
    ensures |LastToken(line)| < |line| ==> line[|line| - |LastToken(line)| - 1] == ' '
  {
    var pieces := Split(line, ' ');
    var token := LastToken(line);
    assert token in pieces;
    SplitPieces(line, ' ');
    JoinSplit(line, ' ');
    if |pieces| == 1 {
      assert line == token;
    } else {
      var init := pieces[..|pieces| - 1];
      assert pieces == init + [token];
      JoinSnoc(init, token, " ");
      assert line == Join(init, " ") + " " + token;
    }
  }

  /** The lines of `lines` that are not empty, in order */
  function NonEmpty(lines: seq<string>): (r: seq<string>)
    ensures |r| <= |lines|
    ensures forall line :: line in r <==> line in lines && line != ""
  {
    if lines == [] then []
    else
      var init, line := lines[..|lines| - 1], lines[|lines| - 1];
      assert lines == init + [line];
      NonEmpty(init) + (if line != "" then [line] else [])
  }

  /** The last token of every line of `lines` */
  function Tokens(lines: seq<string>): (r: seq<string>)
    ensures |r| == |lines|
  {
    seq(|lines|, i requires 0 <= i < |lines| => LastToken(lines[i]))
  }

  /** The text of a file given as its lines: for every non-empty line, its
      last token followed by one space, so that a text that is not empty
      ends with a space */
  function ExtractText(lines: seq<string>): (r: string)
    ensures r == [] || r[|r| - 1] == ' '
  {
    if lines == [] then ""
    else
      var line := lines[|lines| - 1];
      var added := if line != "" then LastToken(line) + " " else "";
      assert added == [] || added[|added| - 1] == ' ';
      ExtractText(lines[..|lines| - 1]) + added
  }

  /** The text `load_json` keeps of a file's content, which ends with a
      space unless it is empty */
  function Text(content: string): (r: string)
    ensures r == [] || r[|r| - 1] == ' '
  {
    ExtractText(Split(content, '\n'))
  }

  /** Joining with a final empty piece ends the join with the separator. */
  lemma JoinTrailing(ws: seq<string>, t: string)
    ensures Join(ws + [t] + [""], " ") == Join(ws + [""], " ") + t + " "
  {
    JoinSnoc(ws + [t], "", " ");
    if ws == [] {
      assert ws + [t] == [t];
      assert ws + [""] == [""];
    } else {
      JoinSnoc(ws, "", " ");
      JoinSnoc(ws, t, " ");
    }
  }

  /** The tokens of the non-empty lines grow with each non-empty line. */
  lemma TokensSnoc(lines: seq<string>)
    requires lines != []
    ensures var init, line := lines[..|lines| - 1], lines[|lines| - 1];
            Tokens(NonEmpty(lines)) == Tokens(NonEmpty(init)) + (if line != "" then [LastToken(line)] else [])
  {
  }

  /** The text is the tokens joined by spaces with one space at the end, or
      nothing when there are no tokens. */
  lemma {:induction false} ExtractTextJoin(lines: seq<string>)
    ensures ExtractText(lines) == Join(Tokens(NonEmpty(lines)) + [""], " ")
  {
    if lines != [] {
      var init, line := lines[..|lines| - 1], lines[|lines| - 1];
      ExtractTextJoin(init);
      TokensSnoc(lines);
      if line != "" {
        var ws, t := Tokens(NonEmpty(init)), LastToken(line);
        JoinTrailing(ws, t);
        assert Tokens(NonEmpty(lines)) + [""] == ws + [t] + [""];
        assert ExtractText(lines) == ExtractText(init) + t + " ";
      } else {
        assert Tokens(NonEmpty(lines)) == Tokens(NonEmpty(init));
        assert ExtractText(lines) == ExtractText(init) + "";
      }
    }
  }

  /** Splitting the text on spaces gives the last tokens of the non-empty
      lines, in order, and the empty piece after the final space. */
  lemma ExtractTextWords(lines: seq<string>)
    ensures Split(ExtractText(lines), ' ') == Tokens(NonEmpty(lines)) + [""]
  {
    var ws := Tokens(NonEmpty(lines)) + [""];
    ExtractTextJoin(lines);
    forall w | w in ws ensures ' ' !in w {
      if w != "" {
        var i :| 0 <= i < |ws| && ws[i] == w;
        LastTokenEnds(NonEmpty(lines)[i]);
      }
    }
    SplitJoin(ws, ' ');
  }

  /** The text has one space per non-empty line, so it is empty exactly when
      every line is. */
  lemma ExtractTextSpaces(lines: seq<string>)
    ensures Count(ExtractText(lines), ' ') == |NonEmpty(lines)|
    ensures ExtractText(lines) == "" <==> forall line :: line in lines ==> line == ""
  {
    ExtractTextWords(lines);
    var text := ExtractText(lines);
    if text == "" {
      assert Count(text, ' ') == 0;
    }
    if NonEmpty(lines) != [] {
      assert NonEmpty(lines)[0] in NonEmpty(lines);
    }
  }

  /** `load_json` gives each file a record until the first file whose name
      has no `-`, where it raises: at most one record per file. */
  function Loaded(files: seq<SourceFile>): (r: seq<BookText>)
    ensures |r| <= |files|
  {
    UpToNone(Records(files))
  }

  /** The record `load_json` makes of one file, or `None` where it raises,
      which is when the file name has no `-` */
  function Record(file: SourceFile): (r: Option<BookText>)
    ensures r.None? <==> Count(file.name, '-') == 0
  {
    match BookName(file.name)
    case None => None
    case Some(book) => Some(BookText(book, Text(file.content)))
  }

  /** The record of every file, in file order: file `k` raises exactly
      when its name has no `-`, and otherwise its record holds its text */
  function Records(files: seq<SourceFile>): (r: seq<Option<BookText>>)
    ensures |r| == |files|
    ensures forall k :: 0 <= k < |files| ==>
              (r[k].None? <==> Count(files[k].name, '-') == 0) &&
              (r[k].Some? ==> r[k].value.text == Text(files[k].content))
  {
    seq(|files|, k requires 0 <= k < |files| => Record(files[k]))
  }

  /** The values of `rs` before its first `None` */
  function UpToNone<T>(rs: seq<Option<T>>): (r: seq<T>)
    ensures |r| <= |rs|
  {
    if rs == [] then []
    else
      match rs[0]
      case None => []
      case Some(v) => [v] + UpToNone(rs[1..])
  }

  /** Every entry of `rs` is present */
  predicate AllSome<T>(rs: seq<Option<T>>) {
    forall k :: 0 <= k < |rs| ==> rs[k].Some?
  }

  /** Without a `None`, every value is kept, in order. */
  lemma {:induction false} UpToNoneAll<T>(rs: seq<Option<T>>)
    requires AllSome(rs)
    ensures |UpToNone(rs)| == |rs| && forall k :: 0 <= k < |rs| ==> Some(UpToNone(rs)[k]) == rs[k]
  {
    if rs != [] {
      var tail := rs[1..];
      assert AllSome(tail) by {
        forall k | 0 <= k < |tail| ensures tail[k].Some? {
          assert tail[k] == rs[k + 1];
        }
      }
      UpToNoneAll(tail);
      assert rs[0].Some?;
      var r := UpToNone(rs);
      assert r == [rs[0].value] + UpToNone(tail);
      forall k | 0 <= k < |rs| ensures Some(r[k]) == rs[k] {
        if k > 0 {
          assert r[k] == UpToNone(tail)[k - 1];
          assert tail[k - 1] == rs[k];
        }
      }
    }
  }

  /** A prefix without a `None` is kept whole, and the rest goes on after it. */
  lemma {:induction false} UpToNoneAppend<T>(present: seq<Option<T>>, rest: seq<Option<T>>)
    requires AllSome(present)
    ensures UpToNone(present + rest) == UpToNone(present) + UpToNone(rest)
  {
    if present == [] {
      assert present + rest == rest;
    } else {
      var tail := present[1..];
      assert (present + rest)[0] == present[0];
      assert (present + rest)[1..] == tail + rest;
      assert AllSome(tail) by {
        forall k | 0 <= k < |tail| ensures tail[k].Some? {
          assert tail[k] == present[k + 1];
        }
      }
      assert present[0].Some?;
      UpToNoneAppend(tail, rest);
    }
  }

  /** The records of two file lists one after the other */
  lemma RecordsAppend(first: seq<SourceFile>, second: seq<SourceFile>)
    ensures Records(first + second) == Records(first) + Records(second)
  {
    var all := first + second;
    forall k | 0 <= k < |all| ensures Records(all)[k] == (Records(first) + Records(second))[k] {
      if k < |first| {
        assert all[k] == first[k];
      } else {
        assert all[k] == second[k - |first|];
      }
    }
  }

  /** No file name lacks a `-` */
  predicate AllNamed(files: seq<SourceFile>) {
    forall k :: 0 <= k < |files| ==> BookName(files[k].name).Some?
  }

  /** Files that all have a book name all have a record. */
  lemma NamedRecords(files: seq<SourceFile>)
    requires AllNamed(files)
    ensures AllSome(Records(files))
  {
    forall k | 0 <= k < |files| ensures Records(files)[k].Some? {
      assert BookName(files[k].name).Some?;
    }
  }

  /** Loading files that all have a book name gives one record per file, in
      file order, holding its book name and its text. */
  lemma LoadedAll(files: seq<SourceFile>)
    requires AllNamed(files)
    ensures |Loaded(files)| == |files|
    ensures forall k :: 0 <= k < |files| ==>
              Loaded(files)[k] == BookText(BookName(files[k].name).value, Text(files[k].content))
  {
    NamedRecords(files);
    UpToNoneAll(Records(files));
    forall k | 0 <= k < |files|
      ensures Loaded(files)[k] == BookText(BookName(files[k].name).value, Text(files[k].content))
    {
      assert Some(Loaded(files)[k]) == Record(files[k]);
      assert BookName(files[k].name).Some?;
    }
  }

  /** Loading is the loading of a named prefix followed by the rest. */
  lemma LoadedAppend(named: seq<SourceFile>, rest: seq<SourceFile>)
    requires AllNamed(named)
    ensures Loaded(named + rest) == Loaded(named) + Loaded(rest)
  {
    RecordsAppend(named, rest);
    NamedRecords(named);
    UpToNoneAppend(Records(named), Records(rest));
  }

  /** Loading stops at the first file without a book name. */
  lemma LoadedStops(files: seq<SourceFile>, i: nat)
    requires i < |files| && AllNamed(files[..i]) && BookName(files[i].name).None?
    ensures Loaded(files) == Loaded(files[..i]) && !AllNamed(files)
  {
    LoadedAppend(files[..i], files[i..]);
    assert files[..i] + files[i..] == files;
    assert Records(files[i..])[0] == Record(files[i]) == None;
  }

  /** A file with a book name adds its record after those of the files
      before it. */
  lemma LoadedStep(files: seq<SourceFile>, i: nat)
    requires i < |files| && AllNamed(files[..i]) && BookName(files[i].name).Some?
    ensures AllNamed(files[..i + 1])
    ensures Loaded(files[..i + 1])
         == Loaded(files[..i]) + [BookText(BookName(files[i].name).value, Text(files[i].content))]
  {
    var prefix := files[..i + 1];
    assert prefix == files[..i] + [files[i]];
    LoadedAppend(files[..i], [files[i]]);
    var record := BookText(BookName(files[i].name).value, Text(files[i].content));
    assert Records([files[i]]) == [Some(record)];
    assert UpToNone([Some(record)]) == [record] + UpToNone([]);
    forall k | 0 <= k < i + 1 ensures BookName(prefix[k].name).Some? {
      if k < i {
        assert prefix[k] == files[..i][k];
      }
    }
  }

  /** The inner loop of `load_json`: the text of one file */
  method ReadText(content: string) returns (text: string)
    ensures text == Text(content)
  {
    var splitText := Split(content, '\n');
    text := "";
    for k := 0 to |splitText|
      invariant text == ExtractText(splitText[..k])
    {
      var line := splitText[k];
      assert splitText[..k + 1][..k] == splitText[..k];
      if line != "" {
        var pieces := Split(line, ' ');
        var word := pieces[|pieces| - 1];
        text := text + word + " ";
      }
    }
    assert splitText[..|splitText|] == splitText;
  }

  class DataBaseFiller {
    var texts: seq<BookText>

    /** The filler starts with no records. The connector it builds is
        modelled separately. */
    constructor ()
      ensures texts == []
    {
      texts := [];
    }

    /** `load_json`: appends the records of the files to `texts`, keeping
        the records already there. It reports `false` where the Python code
        raises on a file name without `-`, having kept the records of the
        files before it. */
    method LoadJson(files: seq<SourceFile>) returns (ok: bool)
      modifies this
      ensures ok <==> AllNamed(files)
      ensures texts == old(texts) + Loaded(files)
    {
      ok := true;
      var i := 0;
      while i < |files|
        invariant 0 <= i <= |files|
        invariant AllNamed(files[..i])
        invariant texts == old(texts) + Loaded(files[..i])
      {
        var file := files[i];
        var pieces := Split(file.name, '-');
        if |pieces| < 2 {
          LoadedStops(files, i);
          ok := false;
          return;
        }
        var book := pieces[1];
        var text := ReadText(file.content);
        LoadedStep(files, i);
        texts := texts + [BookText(book, text)];
        i := i + 1;
      }
      assert files[..i] == files;
    }

    /** `write_booklist`: the book names of the records, one per record, in
        record order */
    method WriteBooklist() returns (booklist: seq<string>)
      ensures |booklist| == |texts|
      ensures forall k :: 0 <= k < |texts| ==> booklist[k] == texts[k].book
    {
      var records := texts;
      booklist := seq(|records|, k requires 0 <= k < |records| => records[k].book);
    }
  }

  const PaulineBooks: seq<string> := ["Ga", "Php", "1Th", "Phm", "Ro", "2Co", "1Co"]
  const DeuteroPaulineBooks: seq<string> := ["Eph", "Col", "2Th"]
  const PastoralBooks: seq<string> := ["1Ti", "2Ti", "Tit"]
  const GospelBooks: seq<string> := ["Jn", "Mk", "Lk", "Mt"]
  const OtherBooks: seq<string> := ["Ac", "Re", "1Pe", "2Pe", "Jas", "Jud", "Heb"]

  /** The groups `write_book_classes` stores */
  const BookClassTable: seq<BookGroup> := [
    BookGroup("Pauline", PaulineBooks),
    BookGroup("Deutero-Pauline", DeuteroPaulineBooks),
    BookGroup("Pastoral", PastoralBooks),
    BookGroup("Gospels", GospelBooks),
    BookGroup("Other", OtherBooks)
  ]

  /** All the books the groups list, group by group */
  function AllBooks(groups: seq<BookGroup>): seq<string> {
    if groups == [] then [] else groups[0].books + AllBooks(groups[1..])
  }

  /** No book of `a` is a book of `b` */
  predicate Apart(a: seq<string>, b: seq<string>) {
    forall p, q :: 0 <= p < |a| && 0 <= q < |b| ==> a[p] != b[q]
  }

  /** No book is listed twice in `a` */
  predicate Distinct(a: seq<string>) {
    forall p, q :: 0 <= p < q < |a| ==> a[p] != a[q]
  }

  /** No book is listed twice, in one group or in two */
  predicate Disjoint(groups: seq<BookGroup>) {
    groups == [] || (Distinct(groups[0].books) && Apart(groups[0].books, AllBooks(groups[1..])) && Disjoint(groups[1..]))
  }

  lemma PaulineApart()
    ensures Distinct(PaulineBooks) && Apart(PaulineBooks, DeuteroPaulineBooks + PastoralBooks + GospelBooks + OtherBooks)
  {
  }

  lemma DeuteroPaulineApart()
    ensures Distinct(DeuteroPaulineBooks) && Apart(DeuteroPaulineBooks, PastoralBooks + GospelBooks + OtherBooks)
  {
  }

  lemma LaterGroupsApart()
    ensures Distinct(PastoralBooks) && Apart(PastoralBooks, GospelBooks + OtherBooks)
    ensures Distinct(GospelBooks) && Apart(GospelBooks, OtherBooks) && Distinct(OtherBooks)
  {
  }

  /** The table has five groups with 24 books between them, none listed
      twice. */
  lemma BookClassTableShape()
    ensures |BookClassTable| == 5 && |AllBooks(BookClassTable)| == 24
    ensures Disjoint(BookClassTable)
  {
    var t := BookClassTable;
    assert AllBooks(t[4..]) == OtherBooks by {
      assert AllBooks(t[5..]) == [];
      assert OtherBooks + [] == OtherBooks;
    }
    assert AllBooks(t[3..]) == GospelBooks + OtherBooks;
    assert AllBooks(t[2..]) == PastoralBooks + GospelBooks + OtherBooks;
    assert AllBooks(t[1..]) == DeuteroPaulineBooks + PastoralBooks + GospelBooks + OtherBooks;
    PaulineApart();
    DeuteroPaulineApart();
    LaterGroupsApart();
    assert Disjoint(t[4..]) by {
      assert t[4..][1..] == t[5..];
    }
    assert Disjoint(t[3..]) by {
      assert t[3..][1..] == t[4..];
    }
    assert Disjoint(t[2..]) by {
      assert t[2..][1..] == t[3..];
    }
    assert Disjoint(t[1..]) by {
      assert t[1..][1..] == t[2..];
    }
  }

  /** Every book of a group is among all the books. */
  lemma {:induction false} InAllBooks(groups: seq<BookGroup>, i: nat, book: string)
    requires i < |groups| && book in groups[i].books
    ensures book in AllBooks(groups)
  {
    if i > 0 {
      InAllBooks(groups[1..], i - 1, book);
    }
  }

  /** In a table without repeated books, a listed book is held by its group
      alone. */
  lemma {:induction false} DisjointHolder(groups: seq<BookGroup>, book: string, i: nat)
    requires Disjoint(groups) && i < |groups| && book in groups[i].books
    ensures Holders(book, groups) == {i}
  {
    var rest := groups[1..];
    forall j | j in Holders(book, groups) ensures j == i {
      if i != 0 && j != 0 {
        DisjointHolder(rest, book, i - 1);
        assert j - 1 in Holders(book, rest);
      } else if j != i {
        var k := if i == 0 then j else i;
        InAllBooks(rest, k - 1, book);
        assert false;
      }
    }
  }

  /** Under the table, looking up books that it lists gives one group name
      per book, in book order. */
  lemma BookClassTableAligned(books: seq<string>)
    requires forall k :: 0 <= k < |books| ==> books[k] in AllBooks(BookClassTable)
    ensures |ClassesOf(books, BookClassTable)| == |books|
    ensures forall k, i :: 0 <= k < |books| && 0 <= i < |BookClassTable| && books[k] in BookClassTable[i].books ==>
              ClassesOf(books, BookClassTable)[k] == BookClassTable[i].group
  {
    BookClassTableShape();
    forall k | 0 <= k < |books| ensures |Holders(books[k], BookClassTable)| == 1 {
      var i := GroupOf(BookClassTable, books[k]);
      DisjointHolder(BookClassTable, books[k], i);
    }
    ClassesAligned(books, BookClassTable);
  }

  /** The position of a group listing `book`, for a book among all the books */
  lemma {:induction false} GroupOf(groups: seq<BookGroup>, book: string) returns (i: nat)
    requires book in AllBooks(groups)
    ensures i < |groups| && book in groups[i].books
  {
    if book in groups[0].books {
      i := 0;
    } else {
      var j := GroupOf(groups[1..], book);
      i := j + 1;
    }
  }

  /** The Johannine letters, which no group lists */
  predicate JohannineLetter(book: string) {
    book == "1Jn" || book == "2Jn" || book == "3Jn"
  }

  /** The Johannine letters are in no group, so looking one up adds
      nothing to the classes of the books before it. */
  lemma JohannineLettersUnclassified(books: seq<string>, letter: string)
    requires JohannineLetter(letter)
    ensures ClassesOf(books + [letter], BookClassTable) == ClassesOf(books, BookClassTable)
  {
    assert Holders(letter, BookClassTable) == {} by {
      assert letter !in PaulineBooks && letter !in DeuteroPaulineBooks && letter !in PastoralBooks;
      assert letter !in GospelBooks && letter !in OtherBooks;
    }
    UnlistedBook(books, letter, BookClassTable);
  }

  /** A book list made of Johannine letters only has no book classes at all. */
  lemma {:induction false} JohannineLettersOnly(books: seq<string>)
    requires forall i :: 0 <= i < |books| ==> JohannineLetter(books[i])
    ensures ClassesOf(books, BookClassTable) == []
  {
    if books != [] {
      var n := |books| - 1;
      assert books == books[..n] + [books[n]];
      JohannineLettersOnly(books[..n]);
      JohannineLettersUnclassified(books[..n], books[n]);
    }
  }
}
