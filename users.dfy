/** internal/services/user.go, the parts that need no database: the
    `rxUsername` and `rxEmail` validators, the input checks of `CreateUser`,
    and the masking of profiles that do not belong to the viewer. */
module Users {
  import opened Common
  import opened GoStrings
  import opened Models

  // ---------------------------------------------------------------------
  // Character classes (ASCII only, as in the two patterns)
  // ---------------------------------------------------------------------

  predicate IsAsciiLetter(c: char) {
    'a' <= c <= 'z' || 'A' <= c <= 'Z'
  }

  predicate IsAsciiAlnum(c: char) {
    IsAsciiLetter(c) || '0' <= c <= '9'
  }

  /** `[a-zA-Z0-9_-]`: what may follow the first letter of a username. */
  predicate IsUsernameChar(c: char) {
    IsAsciiAlnum(c) || c == '_' || c == '-'
  }

  /** ``[a-zA-Z0-9.!#$%&'*+/=?^_`{|}~-]``: the local part of an address. */
  predicate IsLocalChar(c: char) {
    IsAsciiAlnum(c) || c in ".!#$%&'*+/=?^_`{|}~-"
  }

  /** `[a-zA-Z0-9-]`: the characters of a domain label. */
  predicate IsLabelChar(c: char) {
    IsAsciiAlnum(c) || c == '-'
  }

  // ---------------------------------------------------------------------
  // rxUsername = ^[a-zA-Z][a-zA-Z0-9_-]{0,17}$
  // ---------------------------------------------------------------------

  /** The language of `rxUsername`: 1 to 18 characters, a letter first. */
  predicate ValidUsername(s: string) {
    && 1 <= |s| <= 18
    && IsAsciiLetter(s[0])
    && forall i | 1 <= i < |s| :: IsUsernameChar(s[i])
  }

  /** The matcher: one letter, then at most `budget` more username characters. */
  function ScanUsernameTail(s: string, budget: nat): bool {
    if s == [] then true
    else budget > 0 && IsUsernameChar(s[0]) && ScanUsernameTail(s[1..], budget - 1)
  }

  function MatchUsername(s: string): bool {
    s != [] && IsAsciiLetter(s[0]) && ScanUsernameTail(s[1..], 17)
  }

  lemma {:induction false} ScanUsernameTailCorrect(s: string, budget: nat)
    ensures ScanUsernameTail(s, budget) <==>
              |s| <= budget && forall i | 0 <= i < |s| :: IsUsernameChar(s[i])
  {
    if s != [] {
      ScanUsernameTailCorrect(s[1..], if budget > 0 then budget - 1 else 0);
      assert forall i | 1 <= i < |s| :: s[i] == s[1..][i - 1];
    }
  }

  /** The matcher accepts exactly the language of `rxUsername`. */
  lemma MatchUsernameCorrect(s: string)
    ensures MatchUsername(s) <==> ValidUsername(s)
  {
    if s != [] {
      ScanUsernameTailCorrect(s[1..], 17);
      assert forall i | 1 <= i < |s| :: s[i] == s[1..][i - 1];
    }
  }

  // ---------------------------------------------------------------------
  // rxEmail: local part, one '@', then dot-separated labels of 1 to 63
  // alphanumerics and hyphens that neither start nor end with a hyphen
  // (the "valid e-mail address" of the WHATWG HTML standard,
  // section 4.10.5.1.5)
  // ---------------------------------------------------------------------

  /** `[a-zA-Z0-9](?:[a-zA-Z0-9-]{0,61}[a-zA-Z0-9])?` */
  predicate ValidLabel(l: string) {
    && 1 <= |l| <= 63
    && IsAsciiAlnum(l[0])
    && IsAsciiAlnum(l[|l| - 1])
    && forall i | 0 <= i < |l| :: IsLabelChar(l[i])
  }

  /** A domain: its pieces between dots are all labels. */
  predicate ValidDomain(d: string) {
    var labels := Split(d, ".");
    forall k | 0 <= k < |labels| :: ValidLabel(labels[k])
  }

  /** The language of `rxEmail`. */
  predicate ValidEmail(s: string) {
    exists at | 0 < at < |s| ::
      && s[at] == '@'
      && (forall j | 0 <= j < at :: IsLocalChar(s[j]))
      && ValidDomain(s[at + 1..])
  }

  /** The matcher, one character at a time over the domain: `len` is the
      length of the label read so far and `lastAlnum` whether its last
      character is alphanumeric. */
  function ScanDomain(d: string, len: nat, lastAlnum: bool): bool
    decreases |d|
  {
    if d == [] then len >= 1 && lastAlnum
    else if d[0] == '.' then len >= 1 && lastAlnum && ScanDomain(d[1..], 0, false)
    else if IsAsciiAlnum(d[0]) then len < 63 && ScanDomain(d[1..], len + 1, true)
    else if d[0] == '-' then 1 <= len < 63 && ScanDomain(d[1..], len + 1, false)
    else false
  }

  /** The matcher over the local part; `seen` records a non-empty local part. */
  function ScanLocal(s: string, seen: bool): bool
    decreases |s|
  {
    if s == [] then false
    else if s[0] == '@' then seen && ScanDomain(s[1..], 0, false)
    else IsLocalChar(s[0]) && ScanLocal(s[1..], true)
  }

  function MatchEmail(s: string): bool {
    ScanLocal(s, false)
  }

  /** A viable start of a label: what the domain matcher has read so far. */
  predicate LabelPrefix(p: string) {
    && |p| <= 63
    && (p != [] ==> IsAsciiAlnum(p[0]))
    && forall i | 0 <= i < |p| :: IsLabelChar(p[i])
  }

  /** Splitting at dots, a dot-free prefix joins the first piece. */
  lemma {:induction false} SplitDotPrefix(p: string, r: string)
    requires forall i | 0 <= i < |p| :: p[i] != '.'
    ensures Split(p + r, ".") == [p + Split(r, ".")[0]] + Split(r, ".")[1..]
    decreases |p|
  {
    var rs := Split(r, ".");
    if p == [] {
      assert p + r == r;
      assert p + rs[0] == rs[0];
      assert [rs[0]] + rs[1..] == rs;
    } else {
      SplitDotPrefix(p[1..], r);
      var s := p + r;
      assert s[..1] == [p[0]] && s[1..] == p[1..] + r;
      var t := Split(s[1..], ".");
      assert t == [p[1..] + rs[0]] + rs[1..];
      assert t[0] == p[1..] + rs[0] && t[1..] == rs[1..];
      assert Split(s, ".") == [[s[0]] + t[0]] + t[1..];
      assert [p[0]] + (p[1..] + rs[0]) == p + rs[0];
    }
  }

  /** A leading dot closes an empty first piece. */
  lemma SplitDotHead(r: string)
    requires r != [] && r[0] == '.'
    ensures Split(r, ".") == [[]] + Split(r[1..], ".")
  {
    assert r[..1] == ".";
  }

  /** A dot ends the first label: the domain is valid iff that label is and
      the rest is. */
  lemma DomainAtDot(p: string, d: string)
    requires LabelPrefix(p) && d != [] && d[0] == '.'
    ensures ValidDomain(p + d) <==> ValidLabel(p) && ValidDomain(d[1..])
  {
    SplitDotPrefix(p, d);
    SplitDotHead(d);
    var ls, rs := Split(p + d, "."), Split(d[1..], ".");
    assert ls == [p] + rs;
    if ValidDomain(p + d) {
      forall k | 0 <= k < |rs| ensures ValidLabel(rs[k]) {
        assert ls[k + 1] == rs[k];
      }
    }
    if ValidLabel(p) && ValidDomain(d[1..]) {
      forall k | 1 <= k < |ls| ensures ValidLabel(ls[k]) {
        assert ls[k] == rs[k - 1];
      }
    }
  }

  /** What precedes a valid domain's first dot is a whole label, so every
      prefix of it is a viable label prefix. */
  lemma DomainStartsWithLabel(p: string, r: string)
    requires forall i | 0 <= i < |p| :: p[i] != '.'
    ensures ValidDomain(p + r) ==> LabelPrefix(p)
  {
    SplitDotPrefix(p, r);
    var first := Split(p + r, ".")[0];
    assert first == p + Split(r, ".")[0];
    if ValidDomain(p + r) {
      assert ValidLabel(first);
      assert forall i | 0 <= i < |p| :: p[i] == first[i];
    }
  }

  /** The domain matcher accepts exactly the domains that complete the
      label prefix it has read. */
  lemma {:induction false} ScanDomainCorrect(p: string, d: string)
    requires LabelPrefix(p)
    ensures ScanDomain(d, |p|, p != [] && IsAsciiAlnum(p[|p| - 1])) <==> ValidDomain(p + d)
    decreases |d|
  {
    if d == [] {
      SplitDotPrefix(p, []);
      assert p + d == p;
    } else if d[0] == '.' {
      DomainAtDot(p, d);
      ScanDomainCorrect([], d[1..]);
      assert [] + d[1..] == d[1..];
    } else {
      var c := d[0];
      var p' := p + [c];
      assert p' + d[1..] == p + d;
      if (IsAsciiAlnum(c) && |p| < 63) || (c == '-' && 1 <= |p| < 63) {
        ScanDomainCorrect(p', d[1..]);
      } else {
        assert p'[|p|] == c && |p'| == |p| + 1;
        assert !LabelPrefix(p');
        DomainStartsWithLabel(p', d[1..]);
      }
    }
  }

  /** The first '@' after a run of local characters is the separator. */
  lemma EmailAtSeparator(q: string, s: string)
    requires forall i | 0 <= i < |q| :: IsLocalChar(q[i])
    requires s != [] && s[0] == '@'
    ensures ValidEmail(q + s) <==> q != [] && ValidDomain(s[1..])
  {
    var e := q + s;
    assert e[|q|] == '@' && e[|q| + 1..] == s[1..];
    assert forall j | 0 <= j < |q| :: e[j] == q[j] && e[j] != '@';
    forall at | |q| < at < |e| && e[at] == '@'
      ensures exists j | 0 <= j < at :: !IsLocalChar(e[j])
    {
      assert !IsLocalChar(e[|q|]);
    }
  }

  /** A run of local characters followed by the end of the text or by a
      character that is neither local nor '@' is no address. */
  lemma EmailStuck(q: string, s: string)
    requires forall i | 0 <= i < |q| :: IsLocalChar(q[i])
    requires s == [] || (s[0] != '@' && !IsLocalChar(s[0]))
    ensures !ValidEmail(q + s)
  {
    var e := q + s;
    assert forall j | 0 <= j < |q| :: e[j] == q[j] && e[j] != '@';
    if s != [] {
      assert e[|q|] == s[0] && e[|q|] != '@';
      forall at | |q| < at < |e| && e[at] == '@'
        ensures exists j | 0 <= j < at :: !IsLocalChar(e[j])
      {
        assert !IsLocalChar(e[|q|]);
      }
    }
  }

  /** The whole matcher accepts exactly the addresses that complete the
      local part it has read. */
  lemma {:induction false} ScanLocalCorrect(q: string, s: string)
    requires forall i | 0 <= i < |q| :: IsLocalChar(q[i])
    ensures ScanLocal(s, q != []) <==> ValidEmail(q + s)
    decreases |s|
  {
    if s == [] || (s[0] != '@' && !IsLocalChar(s[0])) {
      EmailStuck(q, s);
    } else if s[0] == '@' {
      EmailAtSeparator(q, s);
      ScanDomainCorrect([], s[1..]);
      assert [] + s[1..] == s[1..];
    } else {
      var q' := q + [s[0]];
      assert q' + s[1..] == q + s;
      ScanLocalCorrect(q', s[1..]);
    }
  }

  /** The matcher accepts exactly the language of `rxEmail`. */
  lemma MatchEmailCorrect(s: string)
    ensures MatchEmail(s) <==> ValidEmail(s)
  {
    ScanLocalCorrect([], s);
    assert [] + s == s;
  }

  lemma {:induction false} ScanDomainHasNoAt(d: string, len: nat, lastAlnum: bool)
    requires ScanDomain(d, len, lastAlnum)
    ensures forall i | 0 <= i < |d| :: d[i] != '@'
    decreases |d|
  {
    if d != [] {
      if d[0] == '.' {
        ScanDomainHasNoAt(d[1..], 0, false);
      } else {
        ScanDomainHasNoAt(d[1..], len + 1, IsAsciiAlnum(d[0]));
      }
      assert forall i | 1 <= i < |d| :: d[i] == d[1..][i - 1];
    }
  }

  lemma DomainHasNoAt(d: string)
    requires ValidDomain(d)
    ensures forall i | 0 <= i < |d| :: d[i] != '@'
  {
    ScanDomainCorrect([], d);
    assert [] + d == d;
    ScanDomainHasNoAt(d, 0, false);
  }

  /** A valid address has exactly one '@': the one that ends the local part. */
  lemma EmailHasOneAt(s: string, at: int)
    requires ValidEmail(s) && 0 <= at < |s| && s[at] == '@'
    ensures forall i | 0 <= i < |s| && i != at :: s[i] != '@'
  {
    var a :| 0 < a < |s| && s[a] == '@' && (forall j | 0 <= j < a :: IsLocalChar(s[j]))
             && ValidDomain(s[a + 1..]);
    var d := s[a + 1..];
    DomainHasNoAt(d);
    assert !IsLocalChar('@');
    forall i | 0 <= i < |s| && i != a
      ensures s[i] != '@'
    {
      if i > a {
        assert s[i] == d[i - a - 1];
      }
    }
  }

  // ---------------------------------------------------------------------
  // CreateUser: input checks
  // ---------------------------------------------------------------------

  datatype InputError =
    | BadEmail     // "bad email address"
    | BadUsername  // "bad username"

  datatype NewUser = NewUser(email: string, username: string)

  /** The checks `CreateUser` makes before touching the store: both inputs
      are trimmed, the email is checked first, then the username. */
  function ValidateNewUser(email: string, username: string): (r: Result<NewUser, InputError>)
    ensures !ValidEmail(TrimSpace(email)) <==> r == Err(BadEmail)
    ensures ValidEmail(TrimSpace(email)) && !ValidUsername(TrimSpace(username)) <==> r == Err(BadUsername)
    ensures r.Ok? ==> r.value == NewUser(TrimSpace(email), TrimSpace(username))
  {
    var e := TrimSpace(email);
    if !MatchEmail(e) then
      MatchEmailCorrect(e);
      Err(BadEmail)
    else
      MatchEmailCorrect(e);
      var u := TrimSpace(username);
      MatchUsernameCorrect(u);
      if !MatchUsername(u) then Err(BadUsername) else Ok(NewUser(e, u))
  }

  /** What is stored has already been trimmed: validating it again accepts
      it unchanged. */
  lemma ValidateNewUserIdempotent(email: string, username: string)
    requires ValidateNewUser(email, username).Ok?
    ensures var v := ValidateNewUser(email, username).value;
      ValidateNewUser(v.email, v.username) == Ok(v)
  {
    TrimSpaceIdempotent(email);
    TrimSpaceIdempotent(username);
  }

  // ---------------------------------------------------------------------
  // Profile masking (GetUsers, GetUserProfile, GetFollowers, GetFollowees)
  // ---------------------------------------------------------------------

  /** `Me` is set exactly when the viewer is signed in as the profile's
      user; any other viewer sees neither the id nor the email. */
  function Mask(p: UserProfile, auth: Option<int>): (r: UserProfile)
    ensures r.me <==> auth == Some(p.user.id)
    ensures r.me ==> r.user.id == p.user.id && r.email == p.email
    ensures !r.me ==> r.user.id == 0 && r.email == ""
    ensures r.user.username == p.user.username && r.user.avatarUrl == p.user.avatarUrl
    ensures r.followersCount == p.followersCount && r.followeesCount == p.followeesCount
    ensures r.following == p.following && r.followed == p.followed
  {
    var me := auth.Some? && auth.value == p.user.id;
    if me then p.(me := true)
    else p.(me := false, user := p.user.(id := 0), email := "")
  }

  /** A viewer learns an id or an email only from their own profile. */
  lemma MaskRevealsOnlyOwnProfile(p: UserProfile, auth: Option<int>)
    requires var r := Mask(p, auth); r.user.id != 0 || r.email != ""
    ensures auth == Some(p.user.id) && Mask(p, auth) == p.(me := true)
  {
  }

  datatype ListError = ScanFailed  // "could not parse results"

  /** The row loop of the three list queries: each scanned row is masked and
      appended; the first row that fails to scan aborts the whole list.
      A row that fails to scan is `None`. */
  method CollectProfiles(rows: seq<Option<UserProfile>>, auth: Option<int>)
    returns (r: Result<seq<UserProfile>, ListError>)
    ensures r.Err? <==> exists i | 0 <= i < |rows| :: rows[i].None?
    ensures r.Ok? ==> |r.value| == |rows|
    ensures r.Ok? ==> forall i | 0 <= i < |rows| :: r.value[i] == Mask(rows[i].value, auth)
  {
    var list: seq<UserProfile> := [];
    var i := 0;
    while i < |rows|
      invariant 0 <= i <= |rows|
      invariant forall j | 0 <= j < i :: rows[j].Some?
      invariant |list| == i
      invariant forall j | 0 <= j < i :: list[j] == Mask(rows[j].value, auth)
    {
      if rows[i].None? {
        return Err(ScanFailed);
      }
      list := list + [Mask(rows[i].value, auth)];
      i := i + 1;
    }
    r := Ok(list);
  }

  datatype ProfileError =
    | InvalidUsername  // "invalid username"
    | FetchFailed      // "error while fetching user profile"

  /** `GetUserProfile` around its single-row query: the username is trimmed
      and checked, the row (`None` when the query fails) gets the trimmed
      username and is masked. */
  function UserProfileFor(username: string, row: Option<UserProfile>, auth: Option<int>)
    : (r: Result<UserProfile, ProfileError>)
    ensures !ValidUsername(TrimSpace(username)) ==> r == Err(InvalidUsername)
    ensures ValidUsername(TrimSpace(username)) && row.None? ==> r == Err(FetchFailed)
    ensures ValidUsername(TrimSpace(username)) && row.Some? ==>
              && r.Ok?
              && r.value.user.username == TrimSpace(username)
              && r.value == Mask(row.value.(user := row.value.user.(username := TrimSpace(username))), auth)
  {
    var u := TrimSpace(username);
    MatchUsernameCorrect(u);
    if !MatchUsername(u) then Err(InvalidUsername)
    else if row.None? then Err(FetchFailed)
    else Ok(Mask(row.value.(user := row.value.user.(username := u)), auth))
  }
}
