/** The signed-in user's labels in the navigation bar
    (`src/components/navbar.tsx`): a username cut from the email, initials
    for the avatar and a display name. */
module Navbar {
  import opened Text

  predicate IsAt(c: char) {
    c == '@'
  }

  /** The characters of `/[._-]/`. */
  predicate IsNameSeparator(c: char) {
    c == '.' || c == '_' || c == '-'
  }

  /** `email.split("@")[0]`: the text before the first "@", or the whole
      email when it has none. */
  function Username(email: string): (u: string)
    ensures |u| <= |email| && u == email[..|u|]
    ensures '@' !in u
    ensures |u| < |email| ==> email[|u|] == '@'
  {
    SplitHead(email, IsAt);
    Split(email, IsAt)[0]
  }

  /** The pieces of the username between separators. */
  function NameParts(email: string): (parts: seq<string>)
    ensures |parts| >= 1
  {
    Split(Username(email), IsNameSeparator)
  }

  /** `getInitials(email)`. */
  function Initials(email: string): (r: string)
    ensures |r| <= 2
  {
    var parts := NameParts(email);
    if |parts| >= 2 then Upper(FirstChar(parts[0]) + FirstChar(parts[1]))
    else
      var u := Username(email);
      Upper(u[..if |u| < 2 then |u| else 2])
  }

  /** `getDisplayName(email)`: the parts joined with spaces. This replaces
      each '.', '_' and '-' of the username by a space, in place, so the
      display name is exactly as long as the username and keeps the casing
      of every other character. */
  function DisplayName(email: string): (r: string)
    ensures r == ReplaceWhere(Username(email), IsNameSeparator, ' ')
    ensures |r| == |Username(email)|
    ensures forall i :: 0 <= i < |Username(email)| && !IsNameSeparator(Username(email)[i]) ==>
      r[i] == Username(email)[i]
  {
    JoinSplit(Username(email), IsNameSeparator, ' ');
    Join(NameParts(email), " ")
  }

  /** `userEmail ? getDisplayName(userEmail) : "User"`, and likewise "U"
      for the initials: a missing email (`user?.email || ""`) is "". */
  function DisplayNameLabel(email: string): (r: string)
    ensures email == "" ==> r == "User"
    ensures email != "" ==> r == DisplayName(email)
  {
    if email == "" then "User" else DisplayName(email)
  }

  function InitialsLabel(email: string): (r: string)
    ensures email == "" ==> r == "U"
    ensures email != "" ==> r == Initials(email) && |r| <= 2
  {
    if email == "" then "U" else Initials(email)
  }

  /** With a separator in the username, the initials are the upper-cased
      first character of the first and of the second part, an empty part
      contributing nothing; without one, the first two characters. */
  lemma {:induction false} InitialsCharacterised(email: string)
    ensures var u := Username(email); var f := FirstWhere(u, IsNameSeparator);
      && (f < |u| ==> Initials(email) == Upper(
            (if f > 0 then [u[0]] else []) +
            (if f + 1 < |u| && !IsNameSeparator(u[f + 1]) then [u[f + 1]] else [])))
      && (f == |u| ==> Initials(email) == Upper(u[..if |u| < 2 then |u| else 2]))
  {
    var u := Username(email);
    var f := FirstWhere(u, IsNameSeparator);
    var parts := Split(u, IsNameSeparator);
    SplitHead(u, IsNameSeparator);
    SplitTail(u, IsNameSeparator);
    if f < |u| {
      var t := u[f + 1..];
      SplitHead(t, IsNameSeparator);
      assert parts[1] == Split(t, IsNameSeparator)[0];
      assert FirstChar(parts[0]) == if f > 0 then [u[0]] else [];
      if f + 1 < |u| && !IsNameSeparator(u[f + 1]) {
        assert FirstWhere(t, IsNameSeparator) > 0;
        assert FirstChar(parts[1]) == [u[f + 1]];
      } else {
        assert parts[1] == [];
      }
    }
  }
}
