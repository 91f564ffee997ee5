/**
 * The two computations of the navigation bar (src/components/navbar.tsx):
 * which link is highlighted for the current path, and the initials shown in
 * the avatar. The signed-in user is the profile the API returns.
 */
module Navbar {
  import opened Wrappers
  import opened Strings
  import opened Store

  /** `isActive(href)` for the current `pathname`: the path is the link
      itself, or, for any link but "/", lies below it. */
  predicate IsActive(pathname: string, href: string)
  {
    pathname == href || (href != "/" && StartsWith(pathname, href + "/"))
  }

  /**
   * For a link other than "/", the path is active exactly when the link
   * starts it and the path either ends there or continues with '/'; "/" is
   * active only on "/" itself.
   */
  lemma IsActiveIff(pathname: string, href: string)
    ensures href != "/" ==>
      (IsActive(pathname, href) <==>
         StartsWith(pathname, href) && (|pathname| == |href| || pathname[|href|] == '/'))
    ensures IsActive(pathname, "/") <==> pathname == "/"
  {
    if href != "/" && StartsWith(pathname, href) && |pathname| > |href| && pathname[|href|] == '/' {
      assert pathname[..|href + "/"|] == href + "/";
    }
    if href != "/" && StartsWith(pathname, href + "/") {
      assert pathname[..|href|] == (href + "/")[..|href|] == href;
    }
    if href != "/" && StartsWith(pathname, href) && |pathname| == |href| {
      assert pathname == pathname[..|href|];
    }
  }

  /** A sibling that only shares a prefix, such as "/dashboardx" for
      "/dashboard", is not active; a page below it is. */
  lemma SiblingNotActive()
    ensures !IsActive("/dashboardx", "/dashboard")
    ensures IsActive("/dashboard/clubs", "/dashboard")
    ensures !IsActive("/dashboard", "/")
  {
    IsActiveIff("/dashboardx", "/dashboard");
    IsActiveIff("/dashboard/clubs", "/dashboard");
    assert "/dashboard/clubs"[..10] == "/dashboard";
  }

  /** `(name?.[0] || '').toUpperCase()`: the first character, upper-cased,
      or nothing for an absent or empty name. */
  function FirstLetter(name: Option<string>): string
  {
    if name.Some? && name.value != "" then [UpperChar(name.value[0])] else ""
  }

  /** `phone.slice(-2)`: the last two characters, or all of a shorter phone. */
  function LastTwo(phone: string): string
  {
    if |phone| <= 2 then phone else phone[|phone| - 2..]
  }

  /** The avatar's initials: "??" when nobody is signed in, the first letters
      of the first and last names, or the end of the phone number when both
      names are absent or empty. */
  function Initials(user: Option<Profile>): string
  {
    match user
    case None => "??"
    case Some(u) =>
      var letters := FirstLetter(u.firstName) + FirstLetter(u.lastName);
      if letters != "" then letters else LastTwo(u.phone)
  }

  /**
   * Without a user the initials are "??". With one, each non-empty name
   * gives one character, its first, upper-cased when it is an ASCII letter,
   * first name before last name; with neither, the initials are the last
   * min(2, |phone|) characters of the phone number.
   */
  lemma InitialsFacts(user: Option<Profile>)
    ensures user.None? ==> Initials(user) == "??"
    ensures user.Some? ==>
      var u := user.value;
      var r := Initials(user);
      var hasFirst := u.firstName.Some? && u.firstName.value != "";
      var hasLast := u.lastName.Some? && u.lastName.value != "";
      && (hasFirst || hasLast ==>
            && |r| == (if hasFirst then 1 else 0) + (if hasLast then 1 else 0)
            && (forall k | 0 <= k < |r| :: !IsAsciiLower(r[k]))
            && (hasFirst ==> r[0] == UpperChar(u.firstName.value[0]))
            && (hasLast ==> r[|r| - 1] == UpperChar(u.lastName.value[0])))
      && (!hasFirst && !hasLast ==>
            && |r| == (if |u.phone| < 2 then |u.phone| else 2)
            && u.phone[|u.phone| - |r|..] == r)
  {
  }

  /** Upper-casing never leaves a lower-case ASCII letter, and changes nothing
      else. */
  lemma UpperCharFacts(c: char)
    ensures !IsAsciiLower(UpperChar(c))
    ensures !IsAsciiLower(c) ==> UpperChar(c) == c
    ensures IsAsciiLower(c) ==> IsAsciiUpper(UpperChar(c)) && LowerChar(UpperChar(c)) == c
  {
  }
}
