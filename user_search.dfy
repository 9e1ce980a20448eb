/** The pure parts of web/src/services/userSearchService.ts: the invite-link
    builder and the query-length guard of the user search. */
module UserSearch {
  import opened Wrappers
  import opened Text

  // ---------------------------------------------------------------------
  // Invite links
  // ---------------------------------------------------------------------

  const INVITE_LINK_BASE: string := "https://app.the30club.com/join/"

  /** The first `n` characters of `s`, or all of it when it is shorter
      (`s.slice(0, n)`). */
  function Slice(s: string, n: nat): (r: string)
    ensures |r| <= n && |r| <= |s|
    ensures |s| <= n ==> r == s
    ensures r == s[..|r|]
  {
    if |s| <= n then s else s[..n]
  }

  /** `displayName?.toLowerCase().replace(/\s+/g, '') || userId.slice(0, 8)`:
      the display name without case and white space, unless that leaves
      nothing (or there is no display name). */
  function InviteUsername(userId: string, displayName: Option<string>): string {
    var fromName := if displayName.Some? then RemoveWhitespace(ToLower(displayName.value)) else "";
    if fromName != "" then fromName else Slice(userId, 8)
  }

  /** `generateInviteLink(userId, displayName)` */
  function GenerateInviteLink(userId: string, displayName: Option<string>): (link: string)
    ensures |link| >= |INVITE_LINK_BASE| && link[..|INVITE_LINK_BASE|] == INVITE_LINK_BASE
  {
    INVITE_LINK_BASE + InviteUsername(userId, displayName)
  }

  /** The username is read back from the link by dropping the fixed prefix. */
  lemma LinkEndsWithUsername(userId: string, displayName: Option<string>)
    ensures GenerateInviteLink(userId, displayName)[|INVITE_LINK_BASE|..] == InviteUsername(userId, displayName)
  {
  }

  /** A display name with a visible character gives a username without
      white space and without capitals, built from the name's characters. */
  lemma UsernameFromDisplayName(userId: string, name: string)
    requires !AllWhitespace(name)
    ensures var username := InviteUsername(userId, Some(name));
      && username == RemoveWhitespace(ToLower(name))
      && username != ""
      && (forall i :: 0 <= i < |username| ==> !IsWhitespace(username[i]) && !IsUpper(username[i]))
      && |username| <= |name|
  {
    var lower := ToLower(name);
    LowerKeepsWhitespace(name);
    assert !AllWhitespace(lower) by {
      var i :| 0 <= i < |name| && !IsWhitespace(name[i]);
      assert !IsWhitespace(lower[i]);
    }
    RemoveWhitespaceEmptyIff(lower);
    var username := RemoveWhitespace(lower);
    forall i | 0 <= i < |username|
      ensures !IsUpper(username[i])
    {
      assert username[i] in lower;
    }
  }

  /** No display name, or one made only of white space, falls back to the
      first eight characters of the user id, case unchanged. */
  lemma UsernameFallback(userId: string, displayName: Option<string>)
    requires displayName.None? || AllWhitespace(displayName.value)
    ensures var username := InviteUsername(userId, displayName);
      && username == userId[..if |userId| < 8 then |userId| else 8]
  {
    if displayName.Some? {
      var lower := ToLower(displayName.value);
      LowerKeepsWhitespace(displayName.value);
      RemoveWhitespaceEmptyIff(lower);
    }
  }

  // ---------------------------------------------------------------------
  // User search guard
  // ---------------------------------------------------------------------

  // A `char` here is a Unicode scalar value, while JavaScript's `length`
  // counts UTF-16 code units: two for a character outside the Basic
  // Multilingual Plane.

  function CodeUnits(c: char): (n: nat)
    ensures n == 1 || n == 2
    ensures n == 2 <==> c as int >= 0x1_0000
  {
    if c as int < 0x1_0000 then 1 else 2
  }

  /** `s.length` */
  function Utf16Length(s: string): (n: nat)
    ensures |s| <= n <= 2 * |s|
    ensures n == |s| <==> forall i :: 0 <= i < |s| ==> s[i] as int < 0x1_0000
  {
    if s == [] then 0
    else
      var n := CodeUnits(s[0]) + Utf16Length(s[1..]);
      assert forall i :: 1 <= i < |s| ==> s[i] == s[1..][i - 1];
      n
  }

  /** A string is shorter than two code units exactly when it is empty or a
      single character of the Basic Multilingual Plane. */
  lemma {:induction false} Utf16LengthBelowTwo(s: string)
    ensures Utf16Length(s) < 2 <==> s == [] || (|s| == 1 && s[0] as int < 0x1_0000)
  {
    if |s| == 1 {
      assert s[1..] == [];
    }
  }

  /** One row of the search result. */
  datatype UserSearchResult = UserSearchResult(
    id: string,
    displayName: Option<string>,
    avatarId: Option<string>,
    photoURL: Option<string>)

  /** `searchUsers(searchQuery)`, with the Firestore query passed in as
      `runQuery`: a query shorter than two UTF-16 code units returns no users
      without querying; any longer query returns what the query finds. */
  function SearchUsers(searchQuery: string, runQuery: string -> seq<UserSearchResult>): (r: seq<UserSearchResult>)
    ensures Utf16Length(searchQuery) < 2 ==> r == []
    ensures Utf16Length(searchQuery) >= 2 ==> r == runQuery(searchQuery)
  {
    if searchQuery == [] || Utf16Length(searchQuery) < 2 then [] else runQuery(searchQuery)
  }

  /** Results only ever come from a query of at least two code units. */
  lemma SearchResultsNeedTwoCharacters(searchQuery: string, runQuery: string -> seq<UserSearchResult>)
    requires SearchUsers(searchQuery, runQuery) != []
    ensures Utf16Length(searchQuery) >= 2 && SearchUsers(searchQuery, runQuery) == runQuery(searchQuery)
  {
  }

  /** The query is run exactly when it has two characters or more, or is a
      single character outside the Basic Multilingual Plane, such as an
      emoji. */
  lemma SearchRunsQuery(searchQuery: string, runQuery: string -> seq<UserSearchResult>)
    ensures (|searchQuery| >= 2 || (|searchQuery| == 1 && searchQuery[0] as int >= 0x1_0000)) ==>
              SearchUsers(searchQuery, runQuery) == runQuery(searchQuery)
    ensures (searchQuery == [] || (|searchQuery| == 1 && searchQuery[0] as int < 0x1_0000)) ==>
              SearchUsers(searchQuery, runQuery) == []
  {
    Utf16LengthBelowTwo(searchQuery);
  }
}
