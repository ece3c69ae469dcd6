/** The bookstore screen's search filter over the recommended books. */
module Catalog {
  import opened Text

  /** A catalog entry. `coverImage` names an image asset; it plays no part
      in searching. */
  datatype Book = Book(
    id: nat,
    title: string,
    author: string,
    description: string,
    coverImage: string,
    category: string)

  /** A book is a hit for an already lower-cased needle when its
      lower-cased title contains that needle. */
  predicate IsHit(lower: Lowercase, needle: string, b: Book) {
    Contains(lower(b.title), needle)
  }

  /** `sub` is `s` with some elements dropped, the rest kept in order. */
  predicate IsSubsequence<T(==)>(sub: seq<T>, s: seq<T>)
    decreases |s|
  {
    if |sub| == 0 then true
    else if |s| == 0 then false
    else if sub[0] == s[0] then IsSubsequence(sub[1..], s[1..])
    else IsSubsequence(sub, s[1..])
  }

  /** The books of `books`, in order, that are hits for `needle`. */
  function Hits(lower: Lowercase, needle: string, books: seq<Book>): (r: seq<Book>)
    ensures IsSubsequence(r, books)
    ensures forall i :: 0 <= i < |r| ==> IsHit(lower, needle, r[i])
    ensures forall b :: b in books && IsHit(lower, needle, b) ==> b in r
    ensures forall b :: multiset(r)[b] == if IsHit(lower, needle, b) then multiset(books)[b] else 0
    decreases |books|
  {
    if |books| == 0 then []
    else
      var rest := Hits(lower, needle, books[1..]);
      assert books == [books[0]] + books[1..];
      if IsHit(lower, needle, books[0]) then [books[0]] + rest else rest
  }

  /** `filteredBooks`: an empty search text shows every recommended book;
      otherwise only those whose lower-cased title contains the lower-cased
      search text. */
  function FilteredBooks(lower: Lowercase, searchText: string, recommended: seq<Book>): (r: seq<Book>)
    ensures searchText == "" ==> r == recommended
    ensures IsSubsequence(r, recommended)
    ensures searchText != "" ==> forall i :: 0 <= i < |r| ==> Contains(lower(r[i].title), lower(searchText))
    ensures searchText != "" ==> forall b :: b in recommended && Contains(lower(b.title), lower(searchText)) ==> b in r
    ensures searchText != "" ==> forall b ::
      multiset(r)[b] == (if Contains(lower(b.title), lower(searchText)) then multiset(recommended)[b] else 0)
  {
    if |searchText| == 0 then
      SubsequenceReflexive(recommended);
      recommended
    else Hits(lower, lower(searchText), recommended)
  }

  /** The same filter written as a loop that walks the list front to back
      and appends each hit, as `Array.filter` does. */
  method FilterBooks(lower: Lowercase, searchText: string, recommended: seq<Book>) returns (r: seq<Book>)
    ensures r == FilteredBooks(lower, searchText, recommended)
  {
    if |searchText| == 0 {
      return recommended;
    }
    var needle := lower(searchText);
    r := [];
    var i := 0;
    while i < |recommended|
      invariant 0 <= i <= |recommended|
      invariant r + Hits(lower, needle, recommended[i..]) == Hits(lower, needle, recommended)
    {
      var b := recommended[i];
      HitsStep(lower, needle, recommended, i);
      var hit := ContainsSubstring(lower(b.title), needle);
      if hit {
        AppendAssoc(r, [b], Hits(lower, needle, recommended[i + 1..]));
        r := r + [b];
      }
      i := i + 1;
    }
    assert recommended[i..] == [];
  }

  /** Filtering from position `i` keeps or drops the book at `i` and
      filters the rest. */
  lemma HitsStep(lower: Lowercase, needle: string, books: seq<Book>, i: nat)
    requires i < |books|
    ensures Hits(lower, needle, books[i..]) ==
      (if IsHit(lower, needle, books[i]) then [books[i]] else []) + Hits(lower, needle, books[i + 1..])
  {
  }

  /** Sequence concatenation is associative. */
  lemma AppendAssoc<T>(a: seq<T>, b: seq<T>, c: seq<T>)
    ensures a + (b + c) == (a + b) + c
  {
  }

  /** Every sequence is a subsequence of itself. */
  lemma {:induction false} SubsequenceReflexive<T>(s: seq<T>)
    ensures IsSubsequence(s, s)
    decreases |s|
  {
    if |s| > 0 {
      SubsequenceReflexive(s[1..]);
    }
  }

  /** A subsequence is never longer than the sequence it is taken from. */
  lemma {:induction false} SubsequenceLength<T>(sub: seq<T>, s: seq<T>)
    requires IsSubsequence(sub, s)
    ensures |sub| <= |s|
    decreases |s|
  {
    if |sub| == 0 {
    } else if sub[0] == s[0] {
      SubsequenceLength(sub[1..], s[1..]);
    } else {
      SubsequenceLength(sub, s[1..]);
    }
  }

  /** Every element of a subsequence is an element of the sequence. */
  lemma {:induction false} SubsequenceMembers<T>(sub: seq<T>, s: seq<T>)
    requires IsSubsequence(sub, s)
    ensures forall x :: x in sub ==> x in s
    decreases |s|
  {
    if |sub| == 0 {
    } else if sub[0] == s[0] {
      SubsequenceMembers(sub[1..], s[1..]);
      assert sub == [sub[0]] + sub[1..];
    } else {
      SubsequenceMembers(sub, s[1..]);
    }
  }

  /** The search never shows more books than are recommended, and only
      recommended ones. */
  lemma FilterShrinks(lower: Lowercase, searchText: string, recommended: seq<Book>)
    ensures |FilteredBooks(lower, searchText, recommended)| <= |recommended|
    ensures forall b :: b in FilteredBooks(lower, searchText, recommended) ==> b in recommended
  {
    var r := FilteredBooks(lower, searchText, recommended);
    SubsequenceLength(r, recommended);
    SubsequenceMembers(r, recommended);
  }

  /** Each recommended book appears in a non-empty search's result exactly as
      often as in the list when it is a hit, and not at all otherwise. */
  lemma FilterCounts(lower: Lowercase, searchText: string, recommended: seq<Book>, b: Book)
    requires searchText != ""
    ensures multiset(FilteredBooks(lower, searchText, recommended))[b] ==
      if Contains(lower(b.title), lower(searchText)) then multiset(recommended)[b] else 0
  {
  }

  /** A needle every title contains keeps the whole list. */
  lemma {:induction false} EmptyNeedleKeepsAll(lower: Lowercase, books: seq<Book>)
    ensures Hits(lower, "", books) == books
    decreases |books|
  {
    if |books| > 0 {
      ContainsTrivial(lower(books[0].title));
      EmptyNeedleKeepsAll(lower, books[1..]);
    }
  }

  /** A non-empty search text that lower-cases to empty text shows every
      recommended book, just as an empty search text does. */
  lemma LowerEmptyShowsAll(lower: Lowercase, searchText: string, recommended: seq<Book>)
    requires searchText != "" && lower(searchText) == ""
    ensures FilteredBooks(lower, searchText, recommended) == recommended
  {
    EmptyNeedleKeepsAll(lower, recommended);
  }

  /** Two non-empty search texts that lower-case alike show the same books. */
  lemma SameLowerSameResult(lower: Lowercase, q1: string, q2: string, recommended: seq<Book>)
    requires q1 != "" && q2 != ""
    requires lower(q1) == lower(q2)
    ensures FilteredBooks(lower, q1, recommended) == FilteredBooks(lower, q2, recommended)
  {
  }

  /** Typing more of a title narrows the search: when the longer query's
      lower-cased form contains the shorter one's, its hits are a sub-list of
      the shorter query's hits. */
  lemma {:induction false} RefiningNarrows(lower: Lowercase, n1: string, n2: string, books: seq<Book>)
    requires Contains(n2, n1)
    ensures IsSubsequence(Hits(lower, n2, books), Hits(lower, n1, books))
    decreases |books|
  {
    if |books| > 0 {
      RefiningNarrows(lower, n1, n2, books[1..]);
      var r1 := Hits(lower, n1, books[1..]);
      var r2 := Hits(lower, n2, books[1..]);
      if IsHit(lower, n2, books[0]) {
        ContainsTransitive(lower(books[0].title), n2, n1);
        assert ([books[0]] + r2)[1..] == r2;
        assert ([books[0]] + r1)[1..] == r1;
      } else if IsHit(lower, n1, books[0]) {
        SubsequenceGrow(r2, r1, books[0]);
      }
    }
  }

  /** Dropping the head of a non-empty subsequence keeps it a subsequence. */
  lemma {:induction false} SubsequenceDropHead<T>(sub: seq<T>, s: seq<T>)
    requires |sub| > 0 && IsSubsequence(sub, s)
    ensures IsSubsequence(sub[1..], s)
    decreases |s|, 0, |sub|
  {
    if sub[0] == s[0] {
      SubsequenceGrow(sub[1..], s[1..], s[0]);
      assert ([s[0]] + s[1..]) == s;
    } else {
      SubsequenceDropHead(sub, s[1..]);
      SubsequenceGrow(sub[1..], s[1..], s[0]);
      assert ([s[0]] + s[1..]) == s;
    }
  }

  /** Growing the longer sequence at the front keeps a subsequence. */
  lemma {:induction false} SubsequenceGrow<T>(sub: seq<T>, s: seq<T>, x: T)
    requires IsSubsequence(sub, s)
    ensures IsSubsequence(sub, [x] + s)
    decreases |s|, 1, |sub|
  {
    var xs := [x] + s;
    assert xs[1..] == s;
    if |sub| > 0 && sub[0] == x {
      SubsequenceDropHead(sub, s);
      SubsequenceGrow(sub[1..], s, x);
    }
  }
}
