/** The dashboard's greeting (`src/app/app/page.tsx`). */
module Dashboard {
  import opened Wrappers
  import opened Text
  import opened Navbar

  /** `getFirstName(email)`: the username cut at its first '.', '_' or
      '-'. It is a prefix of the email, so its casing is the email's own,
      it holds none of '@', '.', '_', '-', and it runs up to the first of
      those characters. */
  function FirstName(email: string): (r: string)
    ensures |r| <= |email| && r == email[..|r|]
    ensures forall i :: 0 <= i < |r| ==> r[i] != '@' && !IsNameSeparator(r[i])
    ensures |r| < |email| ==> email[|r|] == '@' || IsNameSeparator(email[|r|])
  {
    var u := Username(email);
    SplitHead(u, IsNameSeparator);
    var r := Split(u, IsNameSeparator)[0];
    assert r == u[..FirstWhere(u, IsNameSeparator)];
    assert forall i :: 0 <= i < |r| ==> r[i] == u[i];
    r
  }

  /** `user?.email ? getFirstName(user.email) : "there"`. */
  function GreetingName(email: Option<string>): (r: string)
    ensures email.None? || email == Some("") ==> r == "there"
    ensures email.Some? && email.value != "" ==> r == FirstName(email.value)
  {
    if email.Some? && email.value != "" then FirstName(email.value) else "there"
  }

  /** The greeting's name is the first part of the navbar's display name. */
  lemma FirstNameStartsDisplayName(email: string)
    ensures var r := FirstName(email); r == DisplayName(email)[..|r|]
  {
    var u := Username(email);
    SplitHead(u, IsNameSeparator);
    var r := FirstName(email);
    assert r == u[..FirstWhere(u, IsNameSeparator)];
  }
}
