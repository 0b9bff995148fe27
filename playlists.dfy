/**
 * The playlists dialog: the user's playlists in an in-memory list, with the
 * name checks that create and rename run before writing, and delete.
 */
module Playlists {
  import opened Wrappers
  import opened JavaText
  import Media

  /** PlaylistEntity. */
  datatype Playlist = Playlist(id: int, userId: int, name: string, createdAt: int)

  datatype NameCheck = BlankName | NameExists | NameAccepted(name: string)

  /** Playlist i, other than the one at skip, has the given name ignoring case. */
  predicate ClashAt(pls: seq<Playlist>, name: string, skip: int, i: int) {
    0 <= i < |pls| && i != skip && EqualsIgnoreCase(pls[i].name, name)
  }

  /**
   * The dialog's decision on the typed text. Create passes skip = -1; rename
   * passes the position of the playlist being renamed, which is left out of
   * the comparison.
   */
  function CheckName(pls: seq<Playlist>, input: string, skip: int): NameCheck {
    var name := Trim(input);
    if name == "" then BlankName
    else if exists i :: 0 <= i < |pls| && ClashAt(pls, name, skip, i) then NameExists
    else NameAccepted(name)
  }

  /** The duplicate loop: true as soon as some other playlist's name equals name ignoring case. */
  method FindClash(pls: seq<Playlist>, name: string, skip: int) returns (clash: bool)
    ensures clash <==> exists i :: 0 <= i < |pls| && ClashAt(pls, name, skip, i)
  {
    for i := 0 to |pls|
      invariant forall j :: 0 <= j < i ==> !ClashAt(pls, name, skip, j)
    {
      if i != skip && EqualsIgnoreCase(pls[i].name, name) {
        assert ClashAt(pls, name, skip, i);
        return true;
      }
    }
    return false;
  }

  /** No two playlists of the list have names that are equal ignoring case. */
  predicate DistinctIgnoringCase(pls: seq<Playlist>) {
    forall i, j :: 0 <= i < j < |pls| ==> !EqualsIgnoreCase(pls[i].name, pls[j].name)
  }

  /** A name that trims to nothing is refused, and only such a name is refused as blank. */
  lemma BlankRejected(pls: seq<Playlist>, input: string, skip: int)
    ensures CheckName(pls, input, skip) == BlankName <==> forall i :: 0 <= i < |input| ==> IsTrimmed(input[i])
  {
    TrimEmptyIff(input);
  }

  /** An accepted name is the trimmed input: non-empty, with no blank at either end, and clashing with no other playlist. */
  lemma AcceptedName(pls: seq<Playlist>, input: string, skip: int)
    requires CheckName(pls, input, skip).NameAccepted?
    ensures var n := CheckName(pls, input, skip).name;
      && n == Trim(input) && n != ""
      && !IsTrimmed(n[0]) && !IsTrimmed(n[|n| - 1])
      && forall i :: 0 <= i < |pls| && i != skip ==> !EqualsIgnoreCase(pls[i].name, n)
  {
    var t := TrimStart(input);
    var n := TrimEnd(t);
    assert n == t[..|n|];
    assert n[0] == t[0];
    forall i | 0 <= i < |pls| && i != skip
      ensures !EqualsIgnoreCase(pls[i].name, n)
    {
      assert !ClashAt(pls, n, skip, i);
    }
  }

  /** "rock", typed with blanks around it, clashes with an existing "Rock" when creating. */
  lemma CaseVariantRejected(p: Playlist)
    requires p.name == "Rock"
    ensures CheckName([p], "  rock ", -1) == NameExists
  {
    TrimExample();
    LowerExample();
    assert ClashAt([p], "rock", -1, 0);
  }

  lemma TrimExample()
    ensures Trim("  rock ") == "rock"
  {
    TrimStartExample();
    var s2 := "rock ";
    assert s2[..4] == "rock" && IsTrimmed(s2[4]);
    assert !IsTrimmed("rock"[3]);
    assert TrimEnd("rock") == "rock";
  }

  lemma TrimStartExample()
    ensures TrimStart("  rock ") == "rock "
  {
    var s0, s1, s2 := "  rock ", " rock ", "rock ";
    assert s0[1..] == s1 && IsTrimmed(s0[0]);
    assert s1[1..] == s2 && IsTrimmed(s1[0]);
    assert !IsTrimmed(s2[0]);
    assert TrimStart(s2) == s2;
    assert TrimStart(s1) == s2;
  }

  lemma LowerExample()
    ensures EqualsIgnoreCase("Rock", "rock")
  {
    assert ToLower("Rock") == "rock";
    assert ToLower("rock") == "rock";
  }

  /** Renaming "Rock" to "ROCK" is accepted: the playlist being renamed does not clash with itself. */
  lemma RenameToOwnCaseVariant(p: Playlist)
    requires p.name == "Rock"
    ensures CheckName([p], "ROCK", 0) == NameAccepted("ROCK")
  {
    assert !IsTrimmed("ROCK"[0]) && !IsTrimmed("ROCK"[3]);
    assert TrimStart("ROCK") == "ROCK";
    assert TrimEnd("ROCK") == "ROCK";
    forall i | 0 <= i < |[p]|
      ensures !ClashAt([p], "ROCK", 0, i)
    {
      assert i == 0;
    }
  }

  /** Appending a playlist under an accepted name keeps the names distinct ignoring case. */
  lemma CreateKeepsDistinct(pls: seq<Playlist>, input: string, p: Playlist)
    requires DistinctIgnoringCase(pls)
    requires CheckName(pls, input, -1) == NameAccepted(p.name)
    ensures DistinctIgnoringCase(pls + [p])
  {
    AcceptedName(pls, input, -1);
  }

  /** Renaming to an accepted name keeps the names distinct ignoring case. */
  lemma RenameKeepsDistinct(pls: seq<Playlist>, position: int, input: string)
    requires 0 <= position < |pls|
    requires DistinctIgnoringCase(pls)
    requires CheckName(pls, input, position).NameAccepted?
    ensures DistinctIgnoringCase(pls[position := pls[position].(name := CheckName(pls, input, position).name)])
  {
    AcceptedName(pls, input, position);
  }

  /** Deleting a playlist keeps the others' names distinct ignoring case. */
  lemma DeleteKeepsDistinct(pls: seq<Playlist>, position: int)
    requires 0 <= position < |pls|
    requires DistinctIgnoringCase(pls)
    ensures DistinctIgnoringCase(Media.RemoveAt(pls, position))
  {
    var r := Media.RemoveAt(pls, position);
    forall i, j | 0 <= i < j < |r|
      ensures !EqualsIgnoreCase(r[i].name, r[j].name)
    {
      var i' := if i < position then i else i + 1;
      var j' := if j < position then j else j + 1;
      assert r[i] == pls[i'] && r[j] == pls[j'] && i' < j';
    }
  }

  /**
   * showPlaylistsDialog's state: the playlists it loaded for the user and the
   * names it lists, kept side by side, and the row id the database hands out last.
   */
  class PlaylistsDialog {
    var pls: seq<Playlist>
    var names: seq<string>
    const userId: int
    var lastRowId: int

    ghost predicate Valid()
      reads this
    {
      && |names| == |pls|
      && (forall i :: 0 <= i < |pls| ==> names[i] == pls[i].name)
      && (forall i :: 0 <= i < |pls| ==> pls[i].userId == userId)
    }

    /** getPlaylistsForUser(userId), and the names read off it. */
    constructor (loaded: seq<Playlist>, userId: int, lastRowId: int)
      requires forall i :: 0 <= i < |loaded| ==> loaded[i].userId == userId
      ensures Valid() && pls == loaded && this.userId == userId && this.lastRowId == lastRowId
    {
      this.userId := userId;
      this.lastRowId := lastRowId;
      pls := loaded;
      names := seq(|loaded|, i requires 0 <= i < |loaded| => loaded[i].name);
    }

    /** The create button: a refused name changes nothing; an accepted one is inserted and listed at the end. */
    method Create(input: string, now: int) returns (r: NameCheck)
      requires Valid()
      modifies this
      ensures Valid()
      ensures r == CheckName(old(pls), input, -1)
      ensures !r.NameAccepted? ==> pls == old(pls) && names == old(names) && lastRowId == old(lastRowId)
      ensures r.NameAccepted? ==>
        && lastRowId == old(lastRowId) + 1
        && pls == old(pls) + [Playlist(ToInt32(lastRowId), userId, r.name, now)]
        && names == old(names) + [r.name]
    {
      var name := Trim(input);
      if name == "" {
        return BlankName;
      }
      var clash := FindClash(pls, name, -1);
      if clash {
        return NameExists;
      }
      lastRowId := lastRowId + 1;
      var created := Playlist(ToInt32(lastRowId), userId, name, now);
      pls := pls + [created];
      names := names + [name];
      return NameAccepted(name);
    }

    /** The rename button on the playlist at position: checked against the other playlists only. */
    method Rename(position: int, input: string) returns (r: NameCheck)
      requires Valid() && 0 <= position < |pls|
      modifies this
      ensures Valid()
      ensures r == CheckName(old(pls), input, position)
      ensures !r.NameAccepted? ==> pls == old(pls) && names == old(names)
      ensures r.NameAccepted? ==>
        && pls == old(pls)[position := old(pls)[position].(name := r.name)]
        && names == old(names)[position := r.name]
      ensures lastRowId == old(lastRowId)
    {
      var newName := Trim(input);
      if newName == "" {
        return BlankName;
      }
      var clash := FindClash(pls, newName, position);
      if clash {
        return NameExists;
      }
      pls := pls[position := pls[position].(name := newName)];
      names := names[position := newName];
      return NameAccepted(newName);
    }

    /** The delete button on the playlist at position: it leaves both lists. */
    method Delete(position: int)
      requires Valid() && 0 <= position < |pls|
      modifies this
      ensures Valid()
      ensures pls == Media.RemoveAt(old(pls), position) && names == Media.RemoveAt(old(names), position)
      ensures lastRowId == old(lastRowId)
    {
      pls := Media.RemoveAt(pls, position);
      names := Media.RemoveAt(names, position);
    }
  }
}
