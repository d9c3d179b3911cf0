/**
 * The user table as `register` reads and extends it: e-mail normalisation,
 * the lookup by e-mail and the invariant the table keeps.
 */
module Accounts {
  import opened Optional
  import opened Text

  /**
   * Werkzeug's salted password hash, kept symbolic: it records which
   * password it was made from and is never inspected.
   */
  datatype PasswordHash = HashOf(password: string)

  datatype User = User(id: nat, email: string, name: string, passwordHash: PasswordHash)

  /** What `register` does with a form: the outcomes it flashes. */
  datatype RegisterOutcome = MissingField | EmailTaken | Registered(userId: nat)

  /** The e-mail as `register` stores it: `email.strip().lower()`. */
  function NormalizeEmail(raw: string): (email: string)
    ensures |email| <= |raw|
    ensures email == [] <==> AllSpace(raw)
    ensures IsTrimmed(email)
    ensures forall k :: 0 <= k < |email| ==> !('A' <= email[k] <= 'Z')
  {
    LowerKeepsTrimmed(Strip(raw));
    Lower(Strip(raw))
  }

  /** An e-mail as `register` leaves it: stripped, and no upper-case ASCII letter. */
  predicate IsCanonicalEmail(email: string) {
    IsTrimmed(email) && forall k :: 0 <= k < |email| ==> !('A' <= email[k] <= 'Z')
  }

  /** The canonical e-mails are exactly those that normalisation leaves alone. */
  lemma CanonicalIsFixedPoint(email: string)
    ensures IsCanonicalEmail(email) <==> NormalizeEmail(email) == email
  {
    StripFixedPoint(email);
    if IsCanonicalEmail(email) {
      assert Lower(email) == email;
    }
  }

  /** Normalising a stored e-mail again changes nothing. */
  lemma NormalizeEmailIdempotent(raw: string)
    ensures NormalizeEmail(NormalizeEmail(raw)) == NormalizeEmail(raw)
  {
    var email := NormalizeEmail(raw);
    StripFixedPoint(email);
    LowerIdempotent(Strip(raw));
  }

  /** ASCII letter case in the submitted e-mail makes no difference to the stored one. */
  lemma NormalizeEmailIgnoresCase(raw: string)
    ensures NormalizeEmail(Lower(raw)) == NormalizeEmail(raw)
  {
    LowerStrip(raw);
    LowerIdempotent(Strip(raw));
  }

  /** Leading whitespace in the submitted e-mail makes no difference to the stored one. */
  lemma NormalizeEmailIgnoresLeadingSpace(c: char, raw: string)
    requires IsSpace(c)
    ensures NormalizeEmail([c] + raw) == NormalizeEmail(raw)
  {
    StripLeadingSpace(c, raw);
  }

  /** Some user already has this e-mail. */
  predicate Taken(users: seq<User>, email: string) {
    exists i :: 0 <= i < |users| && users[i].email == email
  }

  /**
   * `User.query.filter_by(email=email).first()`: the position of the first
   * user with this e-mail, or `None` when there is none.
   */
  function FindByEmail(users: seq<User>, email: string): (k: Option<nat>)
    ensures k.None? <==> !Taken(users, email)
    ensures k.Some? ==> k.value < |users| && users[k.value].email == email
    ensures k.Some? ==> forall i :: 0 <= i < k.value ==> users[i].email != email
  {
    if users == [] then None
    else if users[0].email == email then Some(0)
    else match FindByEmail(users[1..], email)
      case None => None
      case Some(j) => Some(j + 1)
  }

  /**
   * What every stored user satisfies: ids count up from 1 in insertion
   * order, the e-mail is non-empty and canonical, the name non-empty and
   * stripped, the password non-empty, and no two users share an e-mail.
   */
  ghost predicate UsersValid(users: seq<User>) {
    && (forall i :: 0 <= i < |users| ==>
          && users[i].id == i + 1
          && users[i].email != [] && IsCanonicalEmail(users[i].email)
          && users[i].name != [] && IsTrimmed(users[i].name)
          && users[i].passwordHash.password != [])
    && (forall i, j :: 0 <= i < j < |users| ==> users[i].email != users[j].email)
  }

  /**
   * `register`: the e-mail is stripped and lower-cased, the name stripped;
   * an empty field is refused before the table is consulted, an e-mail
   * already present is refused, and otherwise one user is appended.
   */
  function Register(users: seq<User>, rawEmail: string, rawName: string, password: string): (r: (RegisterOutcome, seq<User>))
    ensures var email, name := NormalizeEmail(rawEmail), Strip(rawName);
      && (r.0 == MissingField <==> email == [] || name == [] || password == [])
      && (r.0 == EmailTaken <==> email != [] && name != [] && password != [] && Taken(users, email))
      && (r.0.Registered? ==> r.0.userId == |users| + 1 && r.1 == users + [User(|users| + 1, email, name, HashOf(password))])
      && (!r.0.Registered? ==> r.1 == users)
  {
    var email, name := NormalizeEmail(rawEmail), Strip(rawName);
    if email == [] || name == [] || password == [] then (MissingField, users)
    else if FindByEmail(users, email).Some? then (EmailTaken, users)
    else (Registered(|users| + 1), users + [User(|users| + 1, email, name, HashOf(password))])
  }

  /** `register` keeps the user table valid: in particular e-mails stay unique. */
  lemma RegisterPreservesValid(users: seq<User>, rawEmail: string, rawName: string, password: string)
    requires UsersValid(users)
    ensures UsersValid(Register(users, rawEmail, rawName, password).1)
  {
    var r := Register(users, rawEmail, rawName, password);
    if r.0.Registered? {
      var email, name := NormalizeEmail(rawEmail), Strip(rawName);
      assert !Taken(users, email);
      var users' := users + [User(|users| + 1, email, name, HashOf(password))];
      assert r.1 == users';
      forall i, j | 0 <= i < j < |users'| ensures users'[i].email != users'[j].email {
        if j == |users| {
          assert users'[i] == users[i];
        }
      }
    }
  }

  /** Registering the same e-mail twice, in any spelling that normalises alike, fails the second time. */
  lemma RegisterTwiceIsTaken(users: seq<User>, rawEmail: string, rawName: string, password: string,
                             rawEmail': string, rawName': string, password': string)
    requires Register(users, rawEmail, rawName, password).0.Registered?
    requires NormalizeEmail(rawEmail') == NormalizeEmail(rawEmail)
    requires Strip(rawName') != [] && password' != []
    ensures Register(Register(users, rawEmail, rawName, password).1, rawEmail', rawName', password').0 == EmailTaken
  {
    var users' := Register(users, rawEmail, rawName, password).1;
    assert users'[|users|].email == NormalizeEmail(rawEmail');
  }
}
