/** `MongoConnector.get_book_classes` and `MongoConnector.get_book_class`,
    which are written identically in the clusterer and the GNT back ends:
    which class groups a list of books belongs to. The two collections are
    passed in as their documents. */
module BookClasses {

  /** A document of the `BookClassesOT` or `BookClassesNT` collection */
  datatype BookGroup = BookGroup(group: string, books: seq<string>)

  /** `to_list(length=100)` returns at most this many documents */
  const FetchLimit: nat := 100

  /** The documents `find({}).to_list(length=100)` returns: the first 100 */
  function Fetched(collection: seq<BookGroup>): (r: seq<BookGroup>)
    ensures |r| <= FetchLimit && |r| <= |collection| && r == collection[..|r|]
    ensures |collection| <= FetchLimit ==> r == collection
    ensures |collection| > FetchLimit ==> |r| == FetchLimit
  {
    if |collection| <= FetchLimit then collection else collection[..FetchLimit]
  }

  /** `get_book_classes`: the OT groups followed by the NT groups, at most
      a hundred of each */
  function AllClasses(otCollection: seq<BookGroup>, ntCollection: seq<BookGroup>): (r: seq<BookGroup>)
    ensures |r| <= 2 * FetchLimit
    ensures var n := |Fetched(otCollection)|;
      n <= |r| && r[..n] == Fetched(otCollection) && r[n..] == Fetched(ntCollection)
  {
    var ot, nt := Fetched(otCollection), Fetched(ntCollection);
    assert (ot + nt)[..|ot|] == ot && (ot + nt)[|ot|..] == nt;
    ot + nt
  }

  /** The names of the groups containing `book`, in the order of `groups`:
      what the inner loop of `get_book_class` appends for one book, at most
      one name per group. */
  function GroupsContaining(book: string, groups: seq<BookGroup>): (r: seq<string>)
    ensures |r| <= |groups|
  {
    if groups == [] then []
    else
      var last := groups[|groups| - 1];
      GroupsContaining(book, groups[..|groups| - 1]) + (if book in last.books then [last.group] else [])
  }

  /** The group names for every book in turn: what `get_book_class`
      returns, at most one name per book and group */
  function ClassesOf(books: seq<string>, groups: seq<BookGroup>): (r: seq<string>)
    ensures |r| <= |books| * |groups|
  {
    if books == [] then []
    else
      var n := |books| - 1;
      assert n * |groups| + |groups| == |books| * |groups|;
      ClassesOf(books[..n], groups) + GroupsContaining(books[n], groups)
  }

  /** The positions of the groups that list `book` */
  function Holders(book: string, groups: seq<BookGroup>): set<int> {
    set j | 0 <= j < |groups| && book in groups[j].books
  }

  /** The inner loop of `get_book_class`: the names of the groups listing
      `book`, appended in group order */
  method AppendGroupsOf(bookclasses: seq<string>, book: string, groups: seq<BookGroup>)
    returns (extended: seq<string>)
    ensures extended == bookclasses + GroupsContaining(book, groups)
  {
    extended := bookclasses;
    for j := 0 to |groups|
      invariant extended == bookclasses + GroupsContaining(book, groups[..j])
    {
      assert groups[..j + 1][..j] == groups[..j];
      if book in groups[j].books {
        extended := extended + [groups[j].group];
      }
    }
    assert groups[..|groups|] == groups;
  }

  /** `MongoConnector.get_book_class` over the two fetched collections */
  method GetBookClass(otCollection: seq<BookGroup>, ntCollection: seq<BookGroup>, bookList: seq<string>)
    returns (bookclasses: seq<string>)
    ensures bookclasses == ClassesOf(bookList, AllClasses(otCollection, ntCollection))
  {
    var allBookclasses := AllClasses(otCollection, ntCollection);
    bookclasses := [];
    for i := 0 to |bookList|
      invariant bookclasses == ClassesOf(bookList[..i], allBookclasses)
    {
      bookclasses := AppendGroupsOf(bookclasses, bookList[i], allBookclasses);
      assert bookList[..i + 1][..i] == bookList[..i];
    }
    assert bookList[..|bookList|] == bookList;
  }

  /** The groups containing a book, over a concatenation of group lists, are
      those of the first list followed by those of the second. */
  lemma {:induction false} GroupsContainingAppend(book: string, first: seq<BookGroup>, second: seq<BookGroup>)
    ensures GroupsContaining(book, first + second) == GroupsContaining(book, first) + GroupsContaining(book, second)
  {
    if second == [] {
      assert first + second == first;
    } else {
      var init := second[..|second| - 1];
      assert (first + second)[..|first + second| - 1] == first + init;
      GroupsContainingAppend(book, first, init);
    }
  }

  /** Because `get_book_classes` puts the OT groups first, a book's OT groups
      come before its NT groups in the lookup. */
  lemma OtBeforeNt(book: string, otCollection: seq<BookGroup>, ntCollection: seq<BookGroup>)
    ensures GroupsContaining(book, AllClasses(otCollection, ntCollection))
         == GroupsContaining(book, Fetched(otCollection)) + GroupsContaining(book, Fetched(ntCollection))
  {
    GroupsContainingAppend(book, Fetched(otCollection), Fetched(ntCollection));
  }

  /** A book gets one entry per group that lists it. */
  lemma {:induction false} GroupsContainingCount(book: string, groups: seq<BookGroup>)
    ensures |GroupsContaining(book, groups)| == |Holders(book, groups)|
  {
    if groups != [] {
      var n := |groups| - 1;
      GroupsContainingCount(book, groups[..n]);
      HoldersInit(book, groups);
      if book in groups[n].books {
        assert n in Holders(book, groups);
        assert Holders(book, groups) == Holders(book, groups[..n]) + {n};
      } else {
        assert Holders(book, groups) == Holders(book, groups[..n]);
      }
    }
  }

  /** A book's entries are the names of exactly the groups that list it. */
  lemma {:induction false} GroupsContainingNames(book: string, groups: seq<BookGroup>, name: string)
    ensures name in GroupsContaining(book, groups) <==>
              exists j :: 0 <= j < |groups| && book in groups[j].books && groups[j].group == name
  {
    if groups != [] {
      var n := |groups| - 1;
      var init := groups[..n];
      GroupsContainingNames(book, init, name);
      if name in GroupsContaining(book, init) {
        var j :| 0 <= j < n && book in init[j].books && init[j].group == name;
        assert groups[j] == init[j];
      }
      if exists j :: 0 <= j < |groups| && book in groups[j].books && groups[j].group == name {
        var j :| 0 <= j < |groups| && book in groups[j].books && groups[j].group == name;
        if j < n {
          assert init[j] == groups[j];
        }
      }
    }
  }

  /** The lookup is book-major: the result for a concatenation of book lists
      is the result for the first list followed by that for the second. */
  lemma {:induction false} ClassesOfAppend(first: seq<string>, second: seq<string>, groups: seq<BookGroup>)
    ensures ClassesOf(first + second, groups) == ClassesOf(first, groups) + ClassesOf(second, groups)
  {
    if second == [] {
      assert first + second == first;
    } else {
      var init, last := second[..|second| - 1], second[|second| - 1];
      var all := first + second;
      assert all[..|all| - 1] == first + init;
      assert all[|all| - 1] == last;
      assert ClassesOf(all, groups) == ClassesOf(first + init, groups) + GroupsContaining(last, groups);
      assert ClassesOf(second, groups) == ClassesOf(init, groups) + GroupsContaining(last, groups);
      ClassesOfAppend(first, init, groups);
    }
  }

  /** The number of entries each book contributes, summed over the books */
  function Memberships(books: seq<string>, groups: seq<BookGroup>): nat {
    if books == [] then 0
    else Memberships(books[..|books| - 1], groups) + |Holders(books[|books| - 1], groups)|
  }

  /** The result has one entry per pair of a book and a group listing it. */
  lemma {:induction false} ClassesOfLength(books: seq<string>, groups: seq<BookGroup>)
    ensures |ClassesOf(books, groups)| == Memberships(books, groups)
  {
    if books != [] {
      ClassesOfLength(books[..|books| - 1], groups);
      GroupsContainingCount(books[|books| - 1], groups);
    }
  }

  /** A book adds nothing to the lookup exactly when no group lists it. */
  lemma UnlistedBook(books: seq<string>, book: string, groups: seq<BookGroup>)
    ensures ClassesOf(books + [book], groups) == ClassesOf(books, groups) <==> Holders(book, groups) == {}
  {
    var all := books + [book];
    assert all[..|all| - 1] == books;
    GroupsContainingCount(book, groups);
  }

  /** A book listed by two groups adds both names, in group order. */
  lemma TwiceListedBook(books: seq<string>, book: string, groups: seq<BookGroup>, j: nat, k: nat)
    requires j < k < |groups|
    ensures Holders(book, groups) == {j, k} ==>
              ClassesOf(books + [book], groups) == ClassesOf(books, groups) + [groups[j].group, groups[k].group]
  {
    var all := books + [book];
    assert all[..|all| - 1] == books;
    if Holders(book, groups) == {j, k} {
      TwoHolders(book, groups, j, k);
    }
  }

  /** Dropping the last group drops its position from the holders. */
  lemma HoldersInit(book: string, groups: seq<BookGroup>)
    requires groups != []
    ensures Holders(book, groups[..|groups| - 1]) == Holders(book, groups) - {|groups| - 1}
  {
    var n := |groups| - 1;
    var init := groups[..n];
    forall x ensures x in Holders(book, init) <==> x in Holders(book, groups) - {n} {
      if 0 <= x < n {
        assert init[x] == groups[x];
      }
    }
  }

  /** A set of one element is that element's singleton. */
  lemma Singleton(s: set<int>, x: int)
    requires |s| == 1 && x in s
    ensures s == {x}
  {
    var rest := s - {x};
    assert s == rest + {x};
    assert |rest| == 0;
  }

  lemma {:induction false} TwoHolders(book: string, groups: seq<BookGroup>, j: nat, k: nat)
    requires j < k < |groups| && Holders(book, groups) == {j, k}
    ensures GroupsContaining(book, groups) == [groups[j].group, groups[k].group]
  {
    var n := |groups| - 1;
    var init := groups[..n];
    HoldersInit(book, groups);
    if k == n {
      assert Holders(book, init) == {j};
      OneHolder(book, init, j);
    } else {
      assert Holders(book, init) == {j, k};
      TwoHolders(book, init, j, k);
    }
  }

  lemma {:induction false} OneHolder(book: string, groups: seq<BookGroup>, j: nat)
    requires j < |groups| && Holders(book, groups) == {j}
    ensures GroupsContaining(book, groups) == [groups[j].group]
  {
    var n := |groups| - 1;
    var init := groups[..n];
    HoldersInit(book, groups);
    if j == n {
      assert Holders(book, init) == {};
      GroupsContainingCount(book, init);
    } else {
      assert Holders(book, init) == {j};
      OneHolder(book, init, j);
    }
  }

  /** Every book of `books` is listed by exactly one group */
  predicate EachInOneGroup(books: seq<string>, groups: seq<BookGroup>) {
    forall i :: 0 <= i < |books| ==> |Holders(books[i], groups)| == 1
  }

  /** If every book is in exactly one group, the result is aligned with the
      books: as long, and entry `i` is the name of book `i`'s group. */
  lemma {:induction false} ClassesAligned(books: seq<string>, groups: seq<BookGroup>)
    requires EachInOneGroup(books, groups)
    ensures |ClassesOf(books, groups)| == |books|
    ensures forall i, j :: 0 <= i < |books| && 0 <= j < |groups| && books[i] in groups[j].books ==>
              ClassesOf(books, groups)[i] == groups[j].group
  {
    if books != [] {
      var n := |books| - 1;
      var init, book := books[..n], books[n];
      assert forall i :: 0 <= i < n ==> init[i] == books[i];
      ClassesAligned(init, groups);
      assert |Holders(book, groups)| == 1;
      var j :| j in Holders(book, groups);
      Singleton(Holders(book, groups), j);
      OneHolder(book, groups, j);
      var r := ClassesOf(books, groups);
      assert r == ClassesOf(init, groups) + [groups[j].group];
      forall i, j' | 0 <= i < |books| && 0 <= j' < |groups| && books[i] in groups[j'].books
        ensures r[i] == groups[j'].group
      {
        if i == n {
          assert j' in Holders(book, groups);
        } else {
          assert init[i] == books[i];
        }
      }
    }
  }
}
