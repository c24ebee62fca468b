/** A worked example: five titles, the query "a", two books per page. */
module Scenarios {
  import opened Wrappers
  import opened Text
  import opened Books
  import opened Paging

  function Titled(id: string, title: string): Book {
    Book(id, title, "author", [], "", "", "")
  }

  function SampleBooks(): seq<Book> {
    [Titled("1", "A Tale"), Titled("2", "Book B"), Titled("3", "Another A"),
     Titled("4", "C Story"), Titled("5", "A Second")]
  }

  /** Searching "a" in the sample keeps the three titles containing an a or A, in their original order. */
  lemma SampleSearch(c: seq<Book>, f: Filters)
    requires c == SampleBooks() && f == Filters(Some("a"), None, None)
    ensures GetBooks(c, f) == [c[0], c[2], c[4]]
  {
    SampleMatches(c, 0);
    SampleMisses(c, 1);
    SampleMatches(c, 2);
    SampleMisses(c, 3);
    SampleMatches(c, 4);
    SearchFive(c, f);
  }

  /** Three matches at two per page: page 1 shows two with one remaining, page 2 the last with none remaining. */
  lemma ThreeMatchesTwoPerPage(r: seq<Book>)
    requires |r| == 3
    ensures PageItems(r, 1, 2) == [r[0], r[1]] && Remaining(|r|, 1, 2) == 1
    ensures PageItems(r, 2, 2) == [r[2]] && Remaining(|r|, 2, 2) == 0
  {
  }

  /** The whole example on the sample list: search "a", then page 1, then page 2. */
  lemma TitleSearchExample(c: seq<Book>, f: Filters)
    requires c == SampleBooks() && f == Filters(Some("a"), None, None)
    ensures var r := GetBooks(c, f);
      r == [c[0], c[2], c[4]] &&
      PageItems(r, 1, 2) == [c[0], c[2]] && Remaining(|r|, 1, 2) == 1 &&
      PageItems(r, 2, 2) == [c[4]] && Remaining(|r|, 2, 2) == 0
  {
    SampleSearch(c, f);
    ThreeMatchesTwoPerPage(GetBooks(c, f));
  }

  /** A title-only search over five books where the first, third and fifth titles match. */
  lemma SearchFive(c: seq<Book>, f: Filters)
    requires |c| == 5 && f.title.Some? && f.title.value != ""
    requires f.author == None && f.genre == None
    requires var q := f.title.value;
      TitleMatches(c[0], q) && !TitleMatches(c[1], q) && TitleMatches(c[2], q) &&
      !TitleMatches(c[3], q) && TitleMatches(c[4], q)
    ensures GetBooks(c, f) == [c[0], c[2], c[4]]
  {
    GetBooksIsOnePass(c, f);
    KeepFive(c, b => Passes(f, b));
  }

  /** Filtering five books by a predicate that holds of the first, third and fifth only. */
  lemma KeepFive(c: seq<Book>, keep: Book -> bool)
    requires |c| == 5
    requires keep(c[0]) && !keep(c[1]) && keep(c[2]) && !keep(c[3]) && keep(c[4])
    ensures Keep(c, keep) == [c[0], c[2], c[4]]
  {
    assert c[4..][1..] == [];
    assert Keep(c[4..], keep) == [c[4]];
    assert c[3..][0] == c[3] && c[3..][1..] == c[4..];
    assert Keep(c[3..], keep) == [c[4]];
    assert c[2..][0] == c[2] && c[2..][1..] == c[3..];
    assert Keep(c[2..], keep) == [c[2], c[4]];
    assert c[1..][0] == c[1] && c[1..][1..] == c[2..];
    assert Keep(c[1..], keep) == [c[2], c[4]];
  }

  /** "A Tale", "Another A" and "A Second" match "a". */
  lemma SampleMatches(c: seq<Book>, i: nat)
    requires c == SampleBooks() && (i == 0 || i == 2 || i == 4)
    ensures TitleMatches(c[i], "a")
  {
    StartsWithA(c[i].title);
  }

  /** "Book B" and "C Story" do not match "a". */
  lemma SampleMisses(c: seq<Book>, i: nat)
    requires c == SampleBooks() && (i == 1 || i == 3)
    ensures !TitleMatches(c[i], "a")
  {
    LacksA(c[i].title);
  }

  /** A title starting with a or A matches the query "a". */
  lemma StartsWithA(t: string)
    requires |t| > 0 && (t[0] == 'a' || t[0] == 'A')
    ensures Includes(ToLower(t), ToLower("a"))
  {
    assert ToLower("a") == ['a'];
    assert OccursAt(ToLower(t), ['a'], 0);
  }

  /** A title with neither a nor A does not match the query "a". */
  lemma LacksA(t: string)
    requires 'a' !in t && 'A' !in t
    ensures !Includes(ToLower(t), ToLower("a"))
  {
    assert ToLower("a") == ['a'];
    forall i | 0 <= i < |t| ensures !OccursAt(ToLower(t), ['a'], i) {
      assert t[i] in t;
      assert ToLower(t)[i] == LowerChar(t[i]) != 'a';
      assert ToLower(t)[i..i + 1][0] == ToLower(t)[i];
    }
  }
}
