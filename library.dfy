/** The Book and Library classes of the console library system. Library keeps
    its books as a list of references and changes that list, and the books in
    it, in place. Every method is proved against the value-level functions of
    module Catalog, applied to the snapshot Contents() taken before the call. */
module LibraryManagementSystem {
  import opened Catalog

  class Book {
    const id: int
    const title: string
    const author: string
    var issued: bool

    constructor (id: int, title: string, author: string)
      ensures this.id == id && this.title == title && this.author == author
      ensures !issued
    {
      this.id := id;
      this.title := title;
      this.author := author;
      issued := false;
    }

    method SetIssued(issued: bool)
      modifies this
      ensures this.issued == issued
    {
      this.issued := issued;
    }

    /** The present value of this book. */
    function Data(): (d: BookData)
      reads this
    {
      BookData(id, title, author, issued)
    }
  }

  /** The values of a list of books, position by position. */
  function Snapshot(books: seq<Book>): (s: seq<BookData>)
    reads books
  {
    seq(|books|, k requires 0 <= k < |books| reads books => books[k].Data())
  }

  lemma SnapshotAppend(books: seq<Book>, b: Book)
    ensures Snapshot(books + [b]) == Snapshot(books) + [b.Data()]
  {
  }

  /** No object occurs twice in `bs`. */
  ghost predicate Unique(bs: seq<Book>)
  {
    forall i, j :: 0 <= i < j < |bs| ==> bs[i] != bs[j]
  }

  /** Setting the flag of one object changes exactly the positions that hold it;
      when no object occurs twice that is the single position `i`. */
  lemma FlippedAt(books: seq<Book>, b: Book, i: nat, before: seq<BookData>, after: seq<BookData>, v: bool)
    requires i < |books| == |before| == |after| && books[i] == b
    requires forall k :: 0 <= k < |books| ==> after[k] == if books[k] == b then before[k].(issued := v) else before[k]
    requires Unique(books)
    ensures after == before[i := before[i].(issued := v)]
  {
  }

  lemma WithoutStep(s: seq<BookData>, i: nat, id: int)
    requires i < |s|
    ensures Without(s[..i + 1], id) == Without(s[..i], id) + if s[i].id == id then [] else [s[i]]
  {
    assert s[..i + 1] == s[..i] + [s[i]];
    WithoutDistributes(s[..i], [s[i]], id);
  }

  /** The objects removeIf leaves in the list: those whose id differs, in list order. */
  ghost function Kept(bs: seq<Book>, id: int): (r: seq<Book>)
    ensures |r| <= |bs|
    ensures forall k :: 0 <= k < |r| ==> r[k] in bs && r[k].id != id
    ensures |r| == |bs| ==> r == bs
  {
    if bs == [] then []
    else
      var last := bs[|bs| - 1];
      Kept(bs[..|bs| - 1], id) + if last.id == id then [] else [last]
  }

  /** An object is kept exactly when it was in the list and its id differs. */
  lemma {:induction false} KeptMembers(bs: seq<Book>, id: int, b: Book)
    ensures b in Kept(bs, id) <==> b in bs && b.id != id
    decreases |bs|
  {
    if bs != [] {
      var n := |bs| - 1;
      KeptMembers(bs[..n], id, b);
      assert bs == bs[..n] + [bs[n]];
    }
  }

  /** When no object has the id, every object is kept. */
  lemma KeptNone(bs: seq<Book>, id: int)
    requires forall k :: 0 <= k < |bs| ==> bs[k].id != id
    ensures Kept(bs, id) == bs
  {
    assert |Kept(bs, id)| == |bs| by {
      KeptSnapshot(bs, id);
      assert !HasId(Snapshot(bs), id);
      assert Without(Snapshot(bs), id) == Snapshot(bs);
    }
  }

  /** The values of the kept objects are the value-level removal of the id. */
  lemma {:induction false} KeptSnapshot(bs: seq<Book>, id: int)
    ensures Snapshot(Kept(bs, id)) == Without(Snapshot(bs), id)
    decreases |bs|
  {
    if bs != [] {
      var n := |bs| - 1;
      var last := bs[n];
      var tail := if last.id == id then [] else [last];
      KeptSnapshot(bs[..n], id);
      assert Snapshot(bs) == Snapshot(bs[..n]) + [last.Data()];
      WithoutDistributes(Snapshot(bs[..n]), [last.Data()], id);
      assert Without([last.Data()], id) == Snapshot(tail) by {
        assert [last.Data()][1..] == [];
      }
      assert Snapshot(Kept(bs, id)) == Snapshot(Kept(bs[..n], id)) + Snapshot(tail);
    }
  }

  /** Filtering never duplicates an object. */
  lemma {:induction false} KeptUnique(bs: seq<Book>, id: int)
    requires Unique(bs)
    ensures Unique(Kept(bs, id))
    decreases |bs|
  {
    if bs != [] {
      var n := |bs| - 1;
      var init := bs[..n];
      assert Unique(init);
      KeptUnique(init, id);
      assert forall k :: 0 <= k < n ==> init[k] != bs[n];
      assert bs[n] !in init;
    }
  }

  class Library {
    var books: seq<Book>
    /** The catalog as written by each call of saveBooks, oldest first. */
    ghost var saveLog: seq<seq<BookData>>

    /** No Book object occurs twice in the list. */
    ghost predicate Distinct()
      reads this`books
    {
      Unique(books)
    }

    ghost function Contents(): (s: seq<BookData>)
      reads this`books, books
      ensures |s| == |books|
    {
      Snapshot(books)
    }

    /** The Book object that issueBook and returnBook would act on, if any. */
    ghost function FirstMatch(id: int): (m: set<Book>)
      reads this`books, books
      ensures |m| <= 1
      ensures forall b :: b in m ==> b in books
    {
      match FindFirst(Contents(), id)
      case None => {}
      case Some(i) => {books[i]}
    }

    /** The list loadBooks produced is given as `loaded`. */
    constructor (loaded: seq<Book>)
      ensures books == loaded && saveLog == []
    {
      books := loaded;
      saveLog := [];
    }

    /** saveBooks: the whole current catalog is written. */
    method Save()
      modifies this`saveLog
      ensures saveLog == old(saveLog) + [Contents()]
    {
      saveLog := saveLog + [Contents()];
    }

    method AddBook(book: Book)
      modifies this
      ensures books == old(books) + [book]
      ensures Contents() == Add(old(Contents()), book.Data())
      ensures old(Distinct()) && book !in old(books) ==> Distinct()
      ensures saveLog == old(saveLog) + [Contents()]
    {
      SnapshotAppend(books, book);
      books := books + [book];
      Save();
    }

    /** The for-loop of issueBook and returnBook: the first position whose book has the id. */
    method Find(id: int) returns (r: Option<nat>)
      ensures r == FindFirst(Contents(), id)
    {
      ghost var cat := Contents();
      var i := 0;
      while i < |books|
        invariant 0 <= i <= |books|
        invariant forall j :: 0 <= j < i ==> cat[j].id != id
      {
        assert cat[i].id == books[i].id;
        if books[i].id == id {
          assert IsFirst(cat, id, i);
          FirstIsUnique(cat, id, i, FindFirst(cat, id).value);
          return Some(i);
        }
        i := i + 1;
      }
      return None;
    }

    /** setIssued on the book at position `i`, seen through the list. */
    method SetFlag(i: nat, v: bool)
      requires i < |books|
      modifies books[i]
      ensures books[i].issued == v
      ensures Distinct() ==> Contents() == old(Contents())[i := old(Contents())[i].(issued := v)]
    {
      ghost var before := Contents();
      var b := books[i];
      b.SetIssued(v);
      assert forall k :: 0 <= k < |books| ==>
        Contents()[k] == if books[k] == b then before[k].(issued := v) else before[k];
      if Distinct() {
        FlippedAt(books, b, i, before, Contents(), v);
      }
    }

    method IssueBook(id: int) returns (o: Outcome)
      modifies this`saveLog, FirstMatch(id)
      ensures o == Issue(old(Contents()), id).outcome
      ensures o == Success ==> books[FindFirst(old(Contents()), id).value].issued == true
      ensures o != Success ==> Contents() == old(Contents())
      ensures Distinct() ==> Contents() == Issue(old(Contents()), id).catalog
      ensures saveLog == if o == Success then old(saveLog) + [Contents()] else old(saveLog)
    {
      ghost var before := Contents();
      var r := Find(id);
      if r.None? {
        return NotFound;
      }
      var i := r.value;
      var b := books[i];
      assert IsFirst(before, id, i);
      if b.issued {
        return AlreadyIssued;
      }
      SetFlag(i, true);
      Save();
      o := Success;
    }

    method ReturnBook(id: int) returns (o: Outcome)
      modifies this`saveLog, FirstMatch(id)
      ensures o == Return(old(Contents()), id).outcome
      ensures o == Success ==> books[FindFirst(old(Contents()), id).value].issued == false
      ensures o != Success ==> Contents() == old(Contents())
      ensures Distinct() ==> Contents() == Return(old(Contents()), id).catalog
      ensures saveLog == if o == Success then old(saveLog) + [Contents()] else old(saveLog)
    {
      ghost var before := Contents();
      var r := Find(id);
      if r.None? {
        return NotFound;
      }
      var i := r.value;
      var b := books[i];
      assert IsFirst(before, id, i);
      if !b.issued {
        return NotIssued;
      }
      SetFlag(i, false);
      Save();
      o := Success;
    }

    /** The scan inside removeIf: the books whose id differs, in list order. */
    method Keep(id: int) returns (kept: seq<Book>)
      ensures kept == Kept(books, id)
      ensures Snapshot(kept) == Without(Contents(), id)
      // A corollary of Kept's contract, stated for callers.
      ensures forall k :: 0 <= k < |kept| ==> kept[k] in books
    {
      ghost var cat := Contents();
      kept := [];
      var i := 0;
      while i < |books|
        invariant 0 <= i <= |books|
        invariant kept == Kept(books[..i], id)
        invariant Snapshot(kept) == Without(cat[..i], id)
        invariant forall k :: 0 <= k < |kept| ==> kept[k] in books
      {
        var b := books[i];
        assert cat[i] == b.Data();
        assert books[..i + 1][..i] == books[..i];
        WithoutStep(cat, i, id);
        if b.id != id {
          SnapshotAppend(kept, b);
          kept := kept + [b];
        }
        i := i + 1;
      }
      assert cat[..i] == cat;
      assert books[..i] == books;
    }

    /** removeBook: removeIf drops every book with the id, not only the first. */
    method RemoveBook(id: int) returns (o: Outcome)
      modifies this`books, this`saveLog
      ensures books == Kept(old(books), id)
      // A corollary of Kept's contract, stated for callers.
      ensures forall k :: 0 <= k < |books| ==> books[k] in old(books)
      ensures o == NotFound ==> books == old(books)
      ensures old(Distinct()) ==> Distinct()
      ensures Contents() == Remove(old(Contents()), id).catalog
      ensures o == Remove(old(Contents()), id).outcome
      ensures saveLog == if o == Success then old(saveLog) + [Contents()] else old(saveLog)
    {
      var kept := Keep(id);
      if Distinct() {
        KeptUnique(books, id);
      }
      ghost var after := Snapshot(kept);
      var removed := |kept| < |books|;
      books := kept;
      assert Contents() == after;
      if removed {
        Save();
        o := Success;
      } else {
        o := NotFound;
      }
    }

    /** displayBooks: whether the list is empty, and every book in list order. */
    method DisplayBooks() returns (empty: bool, entries: seq<BookData>)
      ensures empty <==> books == []
      ensures entries == Contents()
    {
      if |books| == 0 {
        return true, [];
      }
      entries := [];
      var i := 0;
      while i < |books|
        invariant 0 <= i <= |books|
        invariant entries == Contents()[..i]
      {
        entries := entries + [books[i].Data()];
        i := i + 1;
      }
      empty := false;
    }
  }
}
