/**
 * The `User` schema: the shape of a stored user record, the setters the
 * schema applies to `username` (trim) and `email` (trim, then lower-case),
 * the `required` validators, and the `unique` indexes on both keys.
 */
module UserModel {
  import opened Wrappers

  /** A stored user document. `password` holds a bcrypt hash; the two reset
      fields are optional (`resetTokenExpiry` in milliseconds since the epoch). */
  datatype User = User(
    id: nat,
    username: string,
    email: string,
    password: string,
    resetToken: Option<string>,
    resetTokenExpiry: Option<int>)

  // ---------------------------------------------------------------------------
  // The `trim` setter: JavaScript's String.prototype.trim
  // ---------------------------------------------------------------------------

  /** The characters JavaScript's `trim` removes: WhiteSpace and LineTerminator. */
  predicate IsJsSpace(c: char) {
    c == ' ' || c == '\t' || c == '\n' || c == '\r' || c == '\U{000B}' || c == '\U{000C}'
    || c == '\U{00A0}' || c == '\U{1680}' || ('\U{2000}' <= c <= '\U{200A}')
    || c == '\U{2028}' || c == '\U{2029}' || c == '\U{202F}' || c == '\U{205F}'
    || c == '\U{3000}' || c == '\U{FEFF}'
  }

  /** Drops leading white space: the result is the suffix of `s` that starts
      at its first non-space character. */
  function TrimStart(s: string): string {
    if |s| > 0 && IsJsSpace(s[0]) then TrimStart(s[1..]) else s
  }

  lemma {:induction false} LemmaTrimStart(s: string)
    ensures var r := TrimStart(s);
            && |r| <= |s| && r == s[|s| - |r|..]
            && (r == [] || !IsJsSpace(r[0]))
            && forall k :: 0 <= k < |s| - |r| ==> IsJsSpace(s[k])
  {
    if |s| > 0 && IsJsSpace(s[0]) {
      var t := s[1..];
      LemmaTrimStart(t);
      var r := TrimStart(t);
      assert TrimStart(s) == r;
      assert s[|s| - |r|..] == t[|t| - |r|..];
      assert forall k :: 1 <= k < |s| - |r| ==> s[k] == t[k - 1];
    }
  }

  /** Drops trailing white space: the result is the prefix of `s` that ends
      at its last non-space character. */
  function TrimEnd(s: string): string {
    if |s| > 0 && IsJsSpace(s[|s| - 1]) then TrimEnd(s[..|s| - 1]) else s
  }

  lemma {:induction false} LemmaTrimEnd(s: string)
    ensures var r := TrimEnd(s);
            && |r| <= |s| && r == s[..|r|]
            && (r == [] || !IsJsSpace(r[|r| - 1]))
            && forall k :: |r| <= k < |s| ==> IsJsSpace(s[k])
  {
    if |s| > 0 && IsJsSpace(s[|s| - 1]) {
      var t := s[..|s| - 1];
      LemmaTrimEnd(t);
      var r := TrimEnd(t);
      assert TrimEnd(s) == r;
      assert s[..|r|] == t[..|r|];
      assert forall k :: |r| <= k < |t| ==> s[k] == t[k];
    }
  }

  function Trim(s: string): string {
    TrimEnd(TrimStart(s))
  }

  /** A trimmed string has no white space at either end, and trimming it
      again changes nothing. */
  lemma LemmaTrimIdempotent(s: string)
    ensures var t := Trim(s); t == [] || (!IsJsSpace(t[0]) && !IsJsSpace(t[|t| - 1]))
    ensures Trim(Trim(s)) == Trim(s)
  {
    var a := TrimStart(s);
    var t := TrimEnd(a);
    LemmaTrimStart(s);
    LemmaTrimEnd(a);
    if t != [] {
      assert t[0] == a[0];
    }
    assert TrimStart(t) == t;
    assert TrimEnd(t) == t;
  }

  // ---------------------------------------------------------------------------
  // The `lowercase` setter
  // ---------------------------------------------------------------------------

  function LowerChar(c: char): char {
    if 'A' <= c <= 'Z' then (c as int + 32) as char else c
  }

  function Lower(s: string): string {
    seq(|s|, k requires 0 <= k < |s| => LowerChar(s[k]))
  }

  /** Lower-casing neither creates nor removes white space, so it commutes
      with trimming at each end. */
  lemma {:induction false} LemmaTrimStartLower(s: string)
    ensures TrimStart(Lower(s)) == Lower(TrimStart(s))
  {
    if |s| > 0 && IsJsSpace(s[0]) {
      assert Lower(s)[1..] == Lower(s[1..]);
      LemmaTrimStartLower(s[1..]);
    }
  }

  lemma {:induction false} LemmaTrimEndLower(s: string)
    ensures TrimEnd(Lower(s)) == Lower(TrimEnd(s))
  {
    if |s| > 0 && IsJsSpace(s[|s| - 1]) {
      assert Lower(s)[..|s| - 1] == Lower(s[..|s| - 1]);
      LemmaTrimEndLower(s[..|s| - 1]);
    }
  }

  lemma LemmaTrimLowerCommute(s: string)
    ensures Trim(Lower(s)) == Lower(Trim(s))
  {
    LemmaTrimStartLower(s);
    LemmaTrimEndLower(TrimStart(s));
  }

  /** The value the schema stores for an email: trimmed and lower-cased.
      Which setter runs first makes no difference, by `LemmaTrimLowerCommute`. */
  function NormalizeEmail(s: string): string {
    Lower(Trim(s))
  }

  /** The value the schema stores for a username: trimmed. */
  function NormalizeUsername(s: string): string {
    Trim(s)
  }

  /** Normalising a stored email again leaves it as it is: the order of the
      two setters does not matter and each is idempotent. */
  lemma LemmaNormalizeEmailIdempotent(s: string)
    ensures NormalizeEmail(NormalizeEmail(s)) == NormalizeEmail(s)
  {
    var t := Trim(s);
    LemmaTrimLowerCommute(t);
    LemmaTrimIdempotent(s);
    assert Lower(Lower(t)) == Lower(t);
  }

  // ---------------------------------------------------------------------------
  // Documents as the schema stores them
  // ---------------------------------------------------------------------------

  /** The document `User.create` builds from the given values: setters applied,
      the reset fields absent. */
  function Cast(id: nat, email: string, username: string, passwordHash: string): (u: User)
    ensures Normalized(u)
    ensures RequiredPresent(u) <==> NormalizeUsername(username) != "" && NormalizeEmail(email) != "" && passwordHash != ""
  {
    LemmaNormalizeEmailIdempotent(email);
    LemmaTrimIdempotent(username);
    User(id, NormalizeUsername(username), NormalizeEmail(email), passwordHash, None, None)
  }

  /** The `required: true` validators: a string field is missing when empty. */
  predicate RequiredPresent(u: User) {
    u.username != "" && u.email != "" && u.password != ""
  }

  /** The setters have been applied to the stored keys. */
  predicate Normalized(u: User) {
    u.username == NormalizeUsername(u.username) && u.email == NormalizeEmail(u.email)
  }

  /** The two reset fields are both set or both absent. */
  predicate ResetFieldsPaired(u: User) {
    u.resetToken.Some? <==> u.resetTokenExpiry.Some?
  }

  /** The unique indexes on `username` and `email`, and the unique `_id`. */
  predicate UniqueKeys(users: seq<User>) {
    forall i, j :: 0 <= i < j < |users| ==>
      users[i].id != users[j].id
      && users[i].username != users[j].username
      && users[i].email != users[j].email
  }
}
