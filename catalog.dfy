/** Value-level meaning of the book catalog: the ordered list of book records
    as plain values, and what each catalog operation does to it. The classes in
    module LibraryManagementSystem are proved against these functions. */
module Catalog {

  datatype Option<T> = None | Some(value: T)

  /** What one Book object holds at a given moment. */
  datatype BookData = BookData(id: int, title: string, author: string, issued: bool)

  /** The status each catalog operation reports instead of printing it. */
  datatype Outcome = Success | NotFound | AlreadyIssued | NotIssued

  /** The outcome of an operation together with the catalog it leaves. */
  datatype Step = Step(outcome: Outcome, catalog: seq<BookData>)

  predicate HasId(s: seq<BookData>, id: int)
  {
    exists k :: 0 <= k < |s| && s[k].id == id
  }

  /** `i` is the position of the first record with this id. */
  predicate IsFirst(s: seq<BookData>, id: int, i: nat)
  {
    i < |s| && s[i].id == id && forall j :: 0 <= j < i ==> s[j].id != id
  }

  lemma FirstIsUnique(s: seq<BookData>, id: int, i: nat, j: nat)
    requires IsFirst(s, id, i) && IsFirst(s, id, j)
    ensures i == j
  {
  }

  /** The linear scan of issueBook and returnBook: the first position whose id matches. */
  function FindFirst(s: seq<BookData>, id: int): (r: Option<nat>)
    ensures r.Some? ==> IsFirst(s, id, r.value)
    ensures r.None? <==> !HasId(s, id)
  {
    if s == [] then None
    else if s[0].id == id then Some(0)
    else match FindFirst(s[1..], id)
      case None =>
        assert forall k :: 1 <= k < |s| ==> s[k] == s[1..][k - 1];
        None
      case Some(k) =>
        assert forall j :: 1 <= j < k + 1 ==> s[j] == s[1..][j - 1];
        Some(k + 1)
  }

  /** addBook: the book goes to the end of the list, with no check on its id. */
  function Add(s: seq<BookData>, b: BookData): (r: seq<BookData>)
    ensures |r| == |s| + 1 && r[..|s|] == s && r[|s|] == b
  {
    s + [b]
  }

  /** Several addBook calls in a row. */
  function AddAll(s: seq<BookData>, bs: seq<BookData>): seq<BookData>
    decreases |bs|
  {
    if bs == [] then s else AddAll(Add(s, bs[0]), bs[1..])
  }

  /** issueBook: only the first record with the id is looked at. */
  function Issue(s: seq<BookData>, id: int): (r: Step)
    ensures |r.catalog| == |s|
    ensures r.outcome == NotFound <==> !HasId(s, id)
    ensures r.outcome == NotFound ==> r.catalog == s
    ensures forall i: nat {:trigger IsFirst(s, id, i)} :: IsFirst(s, id, i) ==>
              if s[i].issued then r == Step(AlreadyIssued, s)
              else r == Step(Success, s[i := s[i].(issued := true)])
  {
    match FindFirst(s, id)
    case None =>
      assert forall k :: 0 <= k < |s| ==> s[k].id != id;
      Step(NotFound, s)
    case Some(i) =>
      if s[i].issued then Step(AlreadyIssued, s)
      else Step(Success, s[i := s[i].(issued := true)])
  }

  /** returnBook: the mirror image of Issue. */
  function Return(s: seq<BookData>, id: int): (r: Step)
    ensures |r.catalog| == |s|
    ensures r.outcome == NotFound <==> !HasId(s, id)
    ensures r.outcome == NotFound ==> r.catalog == s
    ensures forall i: nat {:trigger IsFirst(s, id, i)} :: IsFirst(s, id, i) ==>
              if s[i].issued then r == Step(Success, s[i := s[i].(issued := false)])
              else r == Step(NotIssued, s)
  {
    match FindFirst(s, id)
    case None =>
      assert forall k :: 0 <= k < |s| ==> s[k].id != id;
      Step(NotFound, s)
    case Some(i) =>
      if s[i].issued then Step(Success, s[i := s[i].(issued := false)])
      else Step(NotIssued, s)
  }

  /** The list left by removeIf: every record with the id is dropped, the rest keep their order. */
  function Without(s: seq<BookData>, id: int): (r: seq<BookData>)
    ensures !HasId(r, id)
    ensures !HasId(s, id) ==> r == s
  {
    if s == [] then []
    else
      var rest := Without(s[1..], id);
      assert forall k :: 1 <= k < |s| ==> s[k] == s[1..][k - 1];
      if s[0].id == id then rest else [s[0]] + rest
  }

  /** Without shortens the list exactly when some record has the id. */
  lemma {:induction false} WithoutLength(s: seq<BookData>, id: int)
    ensures |Without(s, id)| <= |s|
    ensures |Without(s, id)| == |s| <==> !HasId(s, id)
    decreases |s|
  {
    if s != [] {
      WithoutLength(s[1..], id);
      assert forall k :: 1 <= k < |s| ==> s[k] == s[1..][k - 1];
    }
  }

  /** Without keeps every record whose id differs, and nothing else. */
  lemma {:induction false} WithoutMembers(s: seq<BookData>, id: int, b: BookData)
    ensures b in Without(s, id) <==> b in s && b.id != id
    decreases |s|
  {
    if s != [] {
      WithoutMembers(s[1..], id, b);
      assert s == [s[0]] + s[1..];
    }
  }

  /** removeBook: Success exactly when some record had the id. */
  function Remove(s: seq<BookData>, id: int): (r: Step)
    ensures r.outcome == Success <==> HasId(s, id)
    ensures r.outcome == NotFound <==> !HasId(s, id)
    ensures r.catalog == Without(s, id)
  {
    WithoutLength(s, id);
    if |Without(s, id)| < |s| then Step(Success, Without(s, id)) else Step(NotFound, s)
  }

  // ---------- Properties relating several operations ----------

  lemma {:induction false} AddAllAppends(s: seq<BookData>, bs: seq<BookData>)
    ensures AddAll(s, bs) == s + bs
    decreases |bs|
  {
    if bs != [] {
      AddAllAppends(Add(s, bs[0]), bs[1..]);
      assert Add(s, bs[0]) + bs[1..] == s + bs;
    }
  }

  /** Removing keeps relative order: it distributes over concatenation. */
  lemma {:induction false} WithoutDistributes(a: seq<BookData>, b: seq<BookData>, id: int)
    ensures Without(a + b, id) == Without(a, id) + Without(b, id)
    decreases |a|
  {
    if a == [] {
      assert a + b == b;
    } else {
      assert (a + b)[1..] == a[1..] + b;
      WithoutDistributes(a[1..], b, id);
    }
  }

  lemma IssueThenReturnRestores(s: seq<BookData>, id: int, i: nat)
    requires IsFirst(s, id, i) && !s[i].issued
    ensures Issue(s, id).outcome == Success
    ensures Return(Issue(s, id).catalog, id) == Step(Success, s)
  {
    var t := Issue(s, id).catalog;
    assert IsFirst(t, id, i);
    assert t[i := t[i].(issued := false)] == s;
  }

  lemma ReturnThenIssueRestores(s: seq<BookData>, id: int, i: nat)
    requires IsFirst(s, id, i) && s[i].issued
    ensures Return(s, id).outcome == Success
    ensures Issue(Return(s, id).catalog, id) == Step(Success, s)
  {
    var t := Return(s, id).catalog;
    assert IsFirst(t, id, i);
    assert t[i := t[i].(issued := true)] == s;
  }

  lemma IssueTwice(s: seq<BookData>, id: int)
    requires Issue(s, id).outcome == Success
    ensures Issue(Issue(s, id).catalog, id) == Step(AlreadyIssued, Issue(s, id).catalog)
  {
    var i := FindFirst(s, id).value;
    assert IsFirst(Issue(s, id).catalog, id, i);
  }

  lemma ReturnTwice(s: seq<BookData>, id: int)
    requires Return(s, id).outcome == Success
    ensures Return(Return(s, id).catalog, id) == Step(NotIssued, Return(s, id).catalog)
  {
    var i := FindFirst(s, id).value;
    assert IsFirst(Return(s, id).catalog, id, i);
  }

  /** A later available copy with the same id is never reached. */
  lemma IssueStopsAtFirstMatch(s: seq<BookData>, id: int, i: nat, j: nat)
    requires IsFirst(s, id, i) && s[i].issued
    requires i < j < |s| && s[j].id == id && !s[j].issued
    ensures Issue(s, id) == Step(AlreadyIssued, s)
  {
  }

  lemma RemoveThenIssueNotFound(s: seq<BookData>, id: int)
    ensures Issue(Remove(s, id).catalog, id) == Step(NotFound, Remove(s, id).catalog)
    ensures Return(Remove(s, id).catalog, id) == Step(NotFound, Remove(s, id).catalog)
  {
  }

  lemma RemoveIdempotent(s: seq<BookData>, id: int)
    ensures Remove(Remove(s, id).catalog, id) == Step(NotFound, Remove(s, id).catalog)
  {
  }

  /** Setting or clearing the flag of a record with `id` is invisible to every
      other id: removing `id` gives the same list, and every other id is found
      at the same place. */
  lemma {:induction false} FlagChangeKeepsOtherIds(s: seq<BookData>, i: nat, v: bool, id: int, other: int)
    requires i < |s| && s[i].id == id && other != id
    ensures Without(s[i := s[i].(issued := v)], id) == Without(s, id)
    ensures FindFirst(s[i := s[i].(issued := v)], other) == FindFirst(s, other)
  {
    var flipped := s[i].(issued := v);
    var t := s[i := flipped];
    assert s == s[..i] + [s[i]] + s[i + 1..];
    assert t == s[..i] + [flipped] + s[i + 1..];
    WithoutDistributes(s[..i] + [s[i]], s[i + 1..], id);
    WithoutDistributes(s[..i], [s[i]], id);
    WithoutDistributes(s[..i] + [flipped], s[i + 1..], id);
    WithoutDistributes(s[..i], [flipped], id);
    assert Without([s[i]], id) == [] == Without([flipped], id);
    assert forall k :: 0 <= k < |s| ==> t[k].id == s[k].id;
    assert HasId(t, other) <==> HasId(s, other);
    if FindFirst(s, other).Some? {
      FirstIsUnique(t, other, FindFirst(t, other).value, FindFirst(s, other).value);
    }
  }

  /** Issue and Return act only on records with their own id. */
  lemma IssueReturnKeepOtherIds(s: seq<BookData>, id: int, other: int)
    requires other != id
    ensures Without(Issue(s, id).catalog, id) == Without(s, id)
    ensures Without(Return(s, id).catalog, id) == Without(s, id)
    ensures FindFirst(Issue(s, id).catalog, other) == FindFirst(s, other)
    ensures FindFirst(Return(s, id).catalog, other) == FindFirst(s, other)
  {
    if FindFirst(s, id).Some? {
      var i := FindFirst(s, id).value;
      FlagChangeKeepsOtherIds(s, i, true, id, other);
      FlagChangeKeepsOtherIds(s, i, false, id, other);
    }
  }

  /** A short session: two adds, an issue, a repeated issue, a return of a
      book never issued, and a removal. */
  lemma ExampleSession()
    ensures var dune := BookData(1, "Dune", "Herbert", false);
            var orwell := BookData(2, "1984", "Orwell", false);
            var c0 := AddAll([], [dune, orwell]);
            var s1 := Issue(c0, 1);
            var s2 := Issue(s1.catalog, 1);
            var s3 := Return(s2.catalog, 2);
            var s4 := Remove(s3.catalog, 2);
            s1.outcome == Success && s2.outcome == AlreadyIssued && s3.outcome == NotIssued &&
            s4.outcome == Success && s4.catalog == [dune.(issued := true)]
  {
    var dune := BookData(1, "Dune", "Herbert", false);
    var orwell := BookData(2, "1984", "Orwell", false);
    AddAllAppends([], [dune, orwell]);
    var c0 := [dune, orwell];
    assert AddAll([], [dune, orwell]) == c0;
    assert IsFirst(c0, 1, 0);
    var c1 := [dune.(issued := true), orwell];
    assert Issue(c0, 1) == Step(Success, c1);
    assert IsFirst(c1, 1, 0) && IsFirst(c1, 2, 1);
    assert Issue(c1, 1) == Step(AlreadyIssued, c1);
    assert Return(c1, 2) == Step(NotIssued, c1);
    assert HasId(c1, 2);
    assert Without(c1, 2) == [c1[0]] by {
      assert c1[1..][1..] == [];
    }
    assert Remove(c1, 2) == Step(Success, [dune.(issued := true)]);
  }
}
