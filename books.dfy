/**
 * The catalog query of scripts.js, `getBooks(filters)`: up to three
 * `Array.prototype.filter` passes over the full book list, one per filter
 * field that is set.
 */
module Books {
  import opened Wrappers
  import opened Text
  import opened Sequences

  /** One entry of the static book list. `author` and `genres` hold ids into the author and genre tables. */
  datatype Book = Book(
    id: string,
    title: string,
    author: string,
    genres: seq<string>,
    image: string,
    published: string,
    description: string)

  /** The search form's fields; a field the form did not send is `None`. */
  datatype Filters = Filters(title: Option<string>, author: Option<string>, genre: Option<string>)

  /** The value the author and genre drop-downs send for "All Authors" / "All Genres". */
  const Any: string := "any"

  /** `getBooks()` called without arguments: every field absent. */
  const NoFilters: Filters := Filters(None, None, None)

  /** JavaScript truthiness of an optional string: present and non-empty. */
  predicate Truthy(o: Option<string>) {
    o.Some? && o.value != ""
  }

  /** The title stage runs when the title is truthy. */
  predicate TitleApplies(f: Filters) {
    Truthy(f.title)
  }

  /** The author stage runs when the author is truthy and not the sentinel. */
  predicate AuthorApplies(f: Filters) {
    Truthy(f.author) && f.author.value != Any
  }

  /** The genre stage runs when the genre is truthy and not the sentinel. */
  predicate GenreApplies(f: Filters) {
    Truthy(f.genre) && f.genre.value != Any
  }

  /** Case-insensitive substring match of the query in the book's title. */
  predicate TitleMatches(b: Book, query: string) {
    Includes(ToLower(b.title), ToLower(query))
  }

  /** Exact match of the author id. */
  predicate AuthorMatches(b: Book, author: string) {
    b.author == author
  }

  /** The genre id is one of the book's genres. */
  predicate GenreMatches(b: Book, genre: string) {
    genre in b.genres
  }

  /** A book passes every stage that applies. */
  predicate Passes(f: Filters, b: Book) {
    (TitleApplies(f) ==> TitleMatches(b, f.title.value)) &&
    (AuthorApplies(f) ==> AuthorMatches(b, f.author.value)) &&
    (GenreApplies(f) ==> GenreMatches(b, f.genre.value))
  }

  /** No stage applies: every field is absent, empty or, for author and genre, the sentinel. */
  predicate Unconstrained(f: Filters) {
    (f.title == None || f.title == Some("")) &&
    (f.author == None || f.author == Some("") || f.author == Some(Any)) &&
    (f.genre == None || f.genre == Some("") || f.genre == Some(Any))
  }

  /** `s.filter(keep)`: the elements of `s` that satisfy `keep`, in their original order. */
  function Keep(s: seq<Book>, keep: Book -> bool): (r: seq<Book>)
    ensures |r| <= |s|
  {
    if s == [] then [] else (if keep(s[0]) then [s[0]] else []) + Keep(s[1..], keep)
  }

  /** `getBooks(filters)` over the list `books`: the title, author and genre stages in source order. */
  function GetBooks(books: seq<Book>, f: Filters): (r: seq<Book>)
    ensures |r| <= |books|
  {
    var byTitle :=
      if TitleApplies(f) then Keep(books, b => TitleMatches(b, f.title.value)) else books;
    var byAuthor :=
      if AuthorApplies(f) then Keep(byTitle, b => AuthorMatches(b, f.author.value)) else byTitle;
    if GenreApplies(f) then Keep(byAuthor, b => GenreMatches(b, f.genre.value)) else byAuthor
  }

  /** `books.find(book => book.id === id)`: the first book with that id, or nothing. */
  function FindById(books: seq<Book>, id: string): (r: Option<Book>)
    ensures r.None? <==> forall i :: 0 <= i < |books| ==> books[i].id != id
    ensures r.Some? ==>
      exists i :: 0 <= i < |books| && books[i] == r.value && books[i].id == id &&
        forall j :: 0 <= j < i ==> books[j].id != id
  {
    if books == [] then None
    else if books[0].id == id then Some(books[0])
    else
      var r := FindById(books[1..], id);
      assert r.Some? ==>
        exists i :: 0 <= i < |books| && books[i] == r.value && books[i].id == id &&
          forall j :: 0 <= j < i ==> books[j].id != id
      by {
        if r.Some? {
          var i :| 0 <= i < |books[1..]| && books[1..][i] == r.value && books[1..][i].id == id &&
            forall j :: 0 <= j < i ==> books[1..][j].id != id;
          assert forall j :: 0 <= j < i + 1 ==> books[j].id != id by {
            forall j | 0 <= j < i + 1 ensures books[j].id != id {
              if j > 0 { assert books[j] == books[1..][j - 1]; }
            }
          }
        }
      }
      assert r.None? ==> forall i :: 0 <= i < |books| ==> books[i].id != id by {
        if r.None? {
          forall i | 0 <= i < |books| ensures books[i].id != id {
            if i > 0 { assert books[i] == books[1..][i - 1]; }
          }
        }
      }
      r
  }

  // ----- Lemmas about Keep -----

  /** Each element satisfying `keep` is kept as often as it occurs in `s`; every other element is dropped. */
  lemma {:induction false} KeepCount(s: seq<Book>, keep: Book -> bool, b: Book)
    ensures multiset(Keep(s, keep))[b] == if keep(b) then multiset(s)[b] else 0
  {
    if s != [] {
      KeepCount(s[1..], keep, b);
      assert s == [s[0]] + s[1..];
    }
  }

  /** An element is kept exactly when it occurs in `s` and satisfies `keep`. */
  lemma KeepMembership(s: seq<Book>, keep: Book -> bool, b: Book)
    ensures b in Keep(s, keep) <==> b in s && keep(b)
  {
    KeepCount(s, keep, b);
    assert b in Keep(s, keep) <==> multiset(Keep(s, keep))[b] > 0;
  }

  /** Filtering is an order-preserving deletion. */
  lemma {:induction false} KeepIsSubsequence(s: seq<Book>, keep: Book -> bool)
    ensures IsSubsequence(Keep(s, keep), s)
  {
    if s != [] {
      var t := Keep(s[1..], keep);
      KeepIsSubsequence(s[1..], keep);
      if keep(s[0]) {
        var r := [s[0]] + t;
        assert Keep(s, keep) == r;
        assert r[0] == s[0] && r[1..] == t;
      } else {
        assert Keep(s, keep) == t;
        assert t == [] || IsSubsequence(t, s[1..]);
      }
    }
  }

  /** Filtering with predicates that agree everywhere gives the same list. */
  lemma {:induction false} KeepCongruent(s: seq<Book>, p: Book -> bool, q: Book -> bool)
    requires forall b :: p(b) == q(b)
    ensures Keep(s, p) == Keep(s, q)
  {
    if s != [] {
      KeepCongruent(s[1..], p, q);
    }
  }

  /** Filtering with a predicate every element satisfies changes nothing. */
  lemma {:induction false} KeepAll(s: seq<Book>, p: Book -> bool)
    requires forall b :: b in s ==> p(b)
    ensures Keep(s, p) == s
  {
    if s != [] {
      KeepAll(s[1..], p);
      assert s == [s[0]] + s[1..];
    }
  }

  /** Two filter passes are one pass with the conjunction. */
  lemma {:induction false} KeepKeep(s: seq<Book>, p: Book -> bool, q: Book -> bool, pq: Book -> bool)
    requires forall b :: pq(b) == (p(b) && q(b))
    ensures Keep(Keep(s, p), q) == Keep(s, pq)
  {
    if s != [] {
      KeepKeep(s[1..], p, q, pq);
      var t := Keep(s[1..], p);
      var rest := Keep(s[1..], pq);
      assert Keep(s, pq) == (if pq(s[0]) then [s[0]] else []) + rest;
      if p(s[0]) {
        var u := [s[0]] + t;
        assert Keep(s, p) == u;
        assert u[0] == s[0] && u[1..] == t;
        assert Keep(u, q) == (if q(s[0]) then [s[0]] else []) + Keep(t, q);
      } else {
        assert Keep(s, p) == t;
      }
    }
  }

  /** Filtering a list without repetitions yields one without repetitions. */
  lemma {:induction false} KeepDistinct(s: seq<Book>, keep: Book -> bool)
    requires Distinct(s)
    ensures Distinct(Keep(s, keep))
  {
    if s != [] {
      assert Distinct(s[1..]);
      KeepDistinct(s[1..], keep);
      assert s[0] !in s[1..];
      var r := Keep(s, keep);
      var t := Keep(s[1..], keep);
      if keep(s[0]) {
        assert r == [s[0]] + t;
        forall i, j | 0 <= i < j < |r| ensures r[i] != r[j] {
          if i == 0 {
            KeepMembership(s[1..], keep, r[j]);
            assert r[j] == t[j - 1];
          } else {
            assert r[i] == t[i - 1] && r[j] == t[j - 1];
          }
        }
      }
    }
  }

  // ----- Lemmas about GetBooks -----

  /** One filter stage as it is written in `getBooks`: run `keep` when `applies`, else pass the list through. */
  lemma StageIsKeep(s: seq<Book>, applies: bool, keep: Book -> bool, stage: Book -> bool)
    requires forall b :: stage(b) == (applies ==> keep(b))
    ensures (if applies then Keep(s, keep) else s) == Keep(s, stage)
  {
    if applies {
      KeepCongruent(s, keep, stage);
    } else {
      KeepAll(s, stage);
    }
  }

  /** The three successive stages of `getBooks` are a single pass that keeps the books passing every applicable rule. */
  lemma GetBooksIsOnePass(books: seq<Book>, f: Filters)
    ensures GetBooks(books, f) == Keep(books, b => Passes(f, b))
  {
    var t: Book -> bool := b => TitleApplies(f) ==> TitleMatches(b, f.title.value);
    var a: Book -> bool := b => AuthorApplies(f) ==> AuthorMatches(b, f.author.value);
    var g: Book -> bool := b => GenreApplies(f) ==> GenreMatches(b, f.genre.value);
    var ta: Book -> bool := b => t(b) && a(b);
    var tag: Book -> bool := b => Passes(f, b);

    var byTitle := Keep(books, t);
    if TitleApplies(f) {
      StageIsKeep(books, true, b => TitleMatches(b, f.title.value), t);
    } else {
      StageIsKeep(books, false, b => true, t);
    }

    var byAuthor := Keep(books, ta);
    if AuthorApplies(f) {
      StageIsKeep(byTitle, true, b => AuthorMatches(b, f.author.value), a);
    } else {
      StageIsKeep(byTitle, false, b => true, a);
    }
    KeepKeep(books, t, a, ta);

    if GenreApplies(f) {
      StageIsKeep(byAuthor, true, b => GenreMatches(b, f.genre.value), g);
    } else {
      StageIsKeep(byAuthor, false, b => true, g);
    }
    KeepKeep(books, ta, g, tag);
  }

  /** A book is in the result exactly when it is in `books` and passes every rule that applies. */
  lemma GetBooksMembership(books: seq<Book>, f: Filters, b: Book)
    ensures b in GetBooks(books, f) <==>
      b in books &&
      (TitleApplies(f) ==> Includes(ToLower(b.title), ToLower(f.title.value))) &&
      (AuthorApplies(f) ==> b.author == f.author.value) &&
      (GenreApplies(f) ==> f.genre.value in b.genres)
  {
    GetBooksIsOnePass(books, f);
    KeepMembership(books, b => Passes(f, b), b);
  }

  /** Each passing book occurs in the result as often as in `books`, each failing book not at all. */
  lemma GetBooksCount(books: seq<Book>, f: Filters, b: Book)
    ensures multiset(GetBooks(books, f))[b] == if Passes(f, b) then multiset(books)[b] else 0
  {
    GetBooksIsOnePass(books, f);
    KeepCount(books, b => Passes(f, b), b);
  }

  /** The result keeps the original relative order and repeats nothing. */
  lemma GetBooksIsSubsequence(books: seq<Book>, f: Filters)
    ensures IsSubsequence(GetBooks(books, f), books)
  {
    GetBooksIsOnePass(books, f);
    KeepIsSubsequence(books, b => Passes(f, b));
  }

  /** A book list without repetitions gives results without repetitions. */
  lemma GetBooksDistinct(books: seq<Book>, f: Filters)
    requires Distinct(books)
    ensures Distinct(GetBooks(books, f))
  {
    GetBooksIsOnePass(books, f);
    KeepDistinct(books, b => Passes(f, b));
  }

  /** With no title, and author and genre absent or "any", the result is the whole list. */
  lemma GetBooksUnconstrained(books: seq<Book>, f: Filters)
    requires Unconstrained(f)
    ensures GetBooks(books, f) == books
  {
  }

  /** Running the same query on its own result changes nothing. */
  lemma GetBooksIdempotent(books: seq<Book>, f: Filters)
    ensures GetBooks(GetBooks(books, f), f) == GetBooks(books, f)
  {
    var p := b => Passes(f, b);
    GetBooksIsOnePass(books, f);
    GetBooksIsOnePass(GetBooks(books, f), f);
    KeepKeep(books, p, p, p);
  }
}
