/** The sign-in screen (src/components/UserSetup.tsx): logging in as an existing user by email, or
    signing up a new one. */
module UserSetup {
  import opened Types
  import opened Text

  /** What a submission leads to: the user handed to the page, one of the two alerts, or nothing
      (a blank sign-up field). */
  datatype Outcome =
    | LoggedIn(user: User)
    | SignedUp(user: User)
    | UserNotFound
    | EmailTaken
    | Ignored

  /** `existingUsers.find(u => u.email === email)` (and `.some` on sign-up), as the position of
      the first user with exactly this email, or -1 where none matches. */
  function FindByEmail(users: seq<User>, email: string): (i: int)
    ensures -1 <= i < |users|
    ensures i >= 0 ==> users[i].email == email && forall j :: 0 <= j < i ==> users[j].email != email
    ensures i < 0 ==> forall j :: 0 <= j < |users| ==> users[j].email != email
  {
    FindFirst(users, (u: User) => u.email == email)
  }

  /** `handleSubmit` (lines 16-44). The email is compared as typed, untrimmed, in both modes;
      `newId` and `joinedAt` stand for `Date.now()` and `new Date()`. */
  function Submit(isLogin: bool, name: string, email: string, users: seq<User>, newId: string, joinedAt: int): (r: Outcome)
    ensures isLogin ==> (r.LoggedIn? || r == UserNotFound)
    ensures !isLogin ==> (r.SignedUp? || r == EmailTaken || r == Ignored)
    ensures r.LoggedIn? <==> isLogin && exists j :: 0 <= j < |users| && users[j].email == email
    ensures r.LoggedIn? ==> r.user == users[FindByEmail(users, email)]
    ensures r == Ignored <==> !isLogin && (Trim(name) == [] || Trim(email) == [])
    ensures r == EmailTaken <==> !isLogin && Trim(name) != [] && Trim(email) != []
                                  && exists j :: 0 <= j < |users| && users[j].email == email
    ensures r.SignedUp? ==> r.user == User(newId, Trim(name), Trim(email), joinedAt)
  {
    if isLogin then
      var i := FindByEmail(users, email);
      if i >= 0 then LoggedIn(users[i]) else UserNotFound
    else if Trim(name) == [] || Trim(email) == [] then Ignored
    else if FindByEmail(users, email) >= 0 then EmailTaken
    else SignedUp(User(newId, Trim(name), Trim(email), joinedAt))
  }

  /** A signed-up user's name and email are neither blank nor padded. */
  lemma {:induction false} SignedUpFieldsAreTrimmed(name: string, email: string, users: seq<User>, newId: string, joinedAt: int)
    ensures var r := Submit(false, name, email, users, newId, joinedAt);
            r.SignedUp? ==> && r.user.name != [] && Trim(r.user.name) == r.user.name
                            && r.user.email != [] && Trim(r.user.email) == r.user.email
  {
    TrimIdempotent(name);
    TrimIdempotent(email);
  }

  /** Signing up with an email typed without padding, then logging in with that email in the
      longer user list, logs in as the new user: the sign-up check made sure nobody had it. */
  lemma {:induction false} SignUpThenLogIn(name: string, email: string, users: seq<User>, newId: string, joinedAt: int,
                                          name2: string, newId2: string, joinedAt2: int)
    requires Trim(email) == email
    requires Submit(false, name, email, users, newId, joinedAt).SignedUp?
    ensures var u := Submit(false, name, email, users, newId, joinedAt).user;
            Submit(true, name2, email, users + [u], newId2, joinedAt2) == LoggedIn(u)
  {
    var u := Submit(false, name, email, users, newId, joinedAt).user;
    var all := users + [u];
    assert all[|users|] == u;
    var i := FindByEmail(all, email);
    assert i == |users| by {
      assert forall j :: 0 <= j < |users| ==> all[j] == users[j];
    }
  }

  /** Padding gets past the handler's duplicate check: with `email` already in use and nobody
      registered under a no-break space (U+00A0) followed by `email`, a sign-up reaching the
      handler with that padded string creates a second user whose stored email is `email`
      itself. The gap is in the handler: the form's `type="email"` field accepts only ASCII, so a
      conforming browser refuses to submit such a value, and the model does not claim it does. */
  lemma {:induction false} PaddedDuplicateSlipsPast(name: string, email: string, users: seq<User>, newId: string, joinedAt: int, k: int)
    requires 0 <= k < |users| && users[k].email == email
    requires email != [] && Trim(email) == email
    requires Trim(name) != []
    requires forall j :: 0 <= j < |users| ==> users[j].email != "\U{00A0}" + email
    ensures var r := Submit(false, name, "\U{00A0}" + email, users, newId, joinedAt);
            r.SignedUp? && r.user.email == users[k].email
  {
    TrimIgnoresPadding("\U{00A0}", email, "");
    assert "\U{00A0}" + email + "" == "\U{00A0}" + email;
  }
}
