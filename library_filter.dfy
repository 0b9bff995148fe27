/**
 * doFilter's matching rule: the query is trimmed and lower-cased; an empty
 * query shows the whole library, any other keeps, in library order, the items
 * whose lower-cased title, artist or album contains it.
 */
module LibraryFilter {
  import opened Wrappers
  import opened JavaText
  import opened Media

  /** nq: a missing query counts as empty. */
  function NormalizeQuery(q: Option<string>): string {
    match q
    case None => ""
    case Some(s) => ToLower(Trim(s))
  }

  predicate FieldMatches(field: Option<string>, nq: string) {
    field.Some? && Contains(ToLower(field.value), nq)
  }

  predicate Matches(m: MediaItem, nq: string) {
    Contains(ToLower(m.title), nq) || FieldMatches(m.artist, nq) || FieldMatches(m.album, nq)
  }

  /** The items of lib, in order, that match nq: what the loop appends, one library item at a time. */
  function FilterBy(lib: seq<MediaItem>, nq: string): (r: seq<MediaItem>)
    ensures |r| <= |lib|
    ensures forall k :: 0 <= k < |r| ==> Matches(r[k], nq)
  {
    if lib == [] then []
    else
      var rest := FilterBy(lib[..|lib| - 1], nq);
      if Matches(lib[|lib| - 1], nq) then rest + [lib[|lib| - 1]] else rest
  }

  /** doFilter's loop for a non-empty query: every library item that matches is appended, in order. */
  method SelectMatching(lib: seq<MediaItem>, nq: string) returns (kept: seq<MediaItem>)
    ensures kept == FilterBy(lib, nq)
  {
    kept := [];
    for i := 0 to |lib|
      invariant kept == FilterBy(lib[..i], nq)
    {
      var m := lib[i];
      assert lib[..i + 1][..i] == lib[..i];
      if Matches(m, nq) {
        kept := kept + [m];
      }
    }
    assert lib[..|lib|] == lib;
  }

  /** The filtered view for query q. */
  function Filtered(lib: seq<MediaItem>, q: Option<string>): seq<MediaItem> {
    var nq := NormalizeQuery(q);
    if nq == "" then lib else FilterBy(lib, nq)
  }

  /** Exactly the matching items are kept, each as many times as it occurs in the library. */
  lemma {:induction false} FilterByCounts(lib: seq<MediaItem>, nq: string)
    ensures forall m :: multiset(FilterBy(lib, nq))[m] == if Matches(m, nq) then multiset(lib)[m] else 0
  {
    if lib != [] {
      var init := lib[..|lib| - 1];
      FilterByCounts(init, nq);
      assert lib == init + [lib[|lib| - 1]];
    }
  }

  /** Membership: an item is shown iff it is in the library and matches. */
  lemma FilterByMembership(lib: seq<MediaItem>, nq: string, m: MediaItem)
    ensures m in FilterBy(lib, nq) <==> m in lib && Matches(m, nq)
  {
    FilterByCounts(lib, nq);
    assert multiset(FilterBy(lib, nq))[m] > 0 <==> m in FilterBy(lib, nq);
    assert multiset(lib)[m] > 0 <==> m in lib;
  }

  /** Order is kept: filtering a concatenation filters each part and concatenates. */
  lemma {:induction false} FilterByAppend(a: seq<MediaItem>, b: seq<MediaItem>, nq: string)
    ensures FilterBy(a + b, nq) == FilterBy(a, nq) + FilterBy(b, nq)
  {
    if b != [] {
      var init := b[..|b| - 1];
      FilterByAppend(a, init, nq);
      assert (a + b)[..|a + b| - 1] == a + init;
      assert (a + b)[|a + b| - 1] == b[|b| - 1];
    } else {
      assert a + b == a;
    }
  }

  /** A library whose every item matches is shown whole; one where none match is shown empty. */
  lemma {:induction false} FilterByAllOrNone(lib: seq<MediaItem>, nq: string)
    ensures (forall k :: 0 <= k < |lib| ==> Matches(lib[k], nq)) ==> FilterBy(lib, nq) == lib
    ensures (forall k :: 0 <= k < |lib| ==> !Matches(lib[k], nq)) ==> FilterBy(lib, nq) == []
  {
    if lib != [] {
      var init := lib[..|lib| - 1];
      FilterByAllOrNone(init, nq);
      assert lib == init + [lib[|lib| - 1]];
    }
  }

  /** A missing query, or one of blanks only, shows the whole library in its order. */
  lemma BlankQueryShowsAll(lib: seq<MediaItem>, q: Option<string>)
    requires q.None? || forall i :: 0 <= i < |q.value| ==> IsTrimmed(q.value[i])
    ensures Filtered(lib, q) == lib
  {
    if q.Some? {
      TrimEmptyIff(q.value);
    }
  }

  /** A query with a non-blank character filters: the view is the matching items of the library, in order. */
  lemma NonBlankQueryFilters(lib: seq<MediaItem>, q: string)
    requires exists i :: 0 <= i < |q| && !IsTrimmed(q[i])
    ensures Filtered(lib, Some(q)) == FilterBy(lib, ToLower(Trim(q)))
  {
    TrimEmptyIff(q);
  }

  lemma {:induction false} TrimStartOfLower(s: string)
    ensures TrimStart(ToLower(s)) == ToLower(TrimStart(s))
  {
    if s != [] {
      assert ToLower(s)[1..] == ToLower(s[1..]);
      TrimStartOfLower(s[1..]);
    }
  }

  lemma {:induction false} TrimEndOfLower(s: string)
    ensures TrimEnd(ToLower(s)) == ToLower(TrimEnd(s))
  {
    if s != [] {
      assert ToLower(s)[..|s| - 1] == ToLower(s[..|s| - 1]);
      TrimEndOfLower(s[..|s| - 1]);
    }
  }

  lemma LowerIdempotent(s: string)
    ensures ToLower(ToLower(s)) == ToLower(s)
  {
  }

  /** The letter case of the query does not matter: a query and its lower-cased form select the same items. */
  lemma QueryCaseIrrelevant(lib: seq<MediaItem>, q: string)
    ensures Filtered(lib, Some(q)) == Filtered(lib, Some(ToLower(q)))
  {
    TrimStartOfLower(q);
    TrimEndOfLower(TrimStart(q));
    LowerIdempotent(Trim(q));
  }

  /** The match is case-insensitive on the item too: " ROCK " finds a track by "The Rockets" through its artist. */
  lemma MatchExample()
    ensures Filtered([MediaItem(1, "Intro", Some("The Rockets"), None, 0, "content://1")], Some(" ROCK "))
            == [MediaItem(1, "Intro", Some("The Rockets"), None, 0, "content://1")]
  {
    var m := MediaItem(1, "Intro", Some("The Rockets"), None, 0, "content://1");
    QueryExample();
    ArtistExample();
    assert Matches(m, "rock");
    assert [m][..0] == [];
    assert FilterBy([m], "rock") == FilterBy([], "rock") + [m];
  }

  lemma QueryExample()
    ensures NormalizeQuery(Some(" ROCK ")) == "rock"
  {
    assert " ROCK "[1..] == "ROCK ";
    assert TrimStart("ROCK ") == "ROCK ";
    assert TrimStart(" ROCK ") == "ROCK ";
    assert "ROCK "[..4] == "ROCK";
    assert TrimEnd("ROCK") == "ROCK";
    assert TrimEnd("ROCK ") == "ROCK";
    assert ToLower("ROCK") == "rock";
  }

  lemma ArtistExample()
    ensures FieldMatches(Some("The Rockets"), "rock")
  {
    var artist := ToLower("The Rockets");
    assert artist[4..8] == "rock";
    assert OccursAt(artist, "rock", 4);
    ContainsIff(artist, "rock");
  }
}
