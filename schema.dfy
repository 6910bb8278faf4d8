/**
 * The shared schema of the lost-and-found application: the rows of the
 * `users`, `authorizedCnics` and `items` tables, the constraints the tables
 * declare, and the validation the insert schemas apply to request bodies.
 *
 * The insert schemas validate strings with anchored regular expressions.
 * They are modelled by a small pattern language whose `Matches` is the
 * whole-string matching of such an expression; the lemmas below state what
 * each of the application's patterns accepts, character by character.
 */
module Schema {
  import opened Wrappers

  // ---------------------------------------------------------------------
  // Rows
  // ---------------------------------------------------------------------

  /** A row of `users`. The login flow creates users from a CNIC only, so
      `username` and `password` may be missing in the in-memory store. The
      table's default for `isAdmin` is applied by the database only: a row
      the in-memory store builds carries no such property, which is `None`. */
  datatype User = User(
    id: int,
    username: Option<string>,
    password: Option<string>,
    cnic: string,
    isAdmin: Option<bool>)

  /** What a caller hands to `createUser`. */
  datatype InsertUser = InsertUser(username: Option<string>, password: Option<string>, cnic: string)

  /** A row of `items`. `itemType` is the column `type`; `date` is a
      timestamp in milliseconds. */
  datatype Item = Item(
    id: int,
    userId: int,
    itemType: string,
    title: string,
    description: string,
    category: string,
    location: string,
    contactNumber: string,
    status: string,
    date: int,
    imageUrl: Option<string>)

  /** The fields of an item that a client supplies, after validation. */
  datatype InsertItem = InsertItem(
    itemType: string,
    title: string,
    description: string,
    category: string,
    location: string,
    contactNumber: string,
    imageUrl: Option<string>)

  /** The fields of x that its creator supplied. */
  function Supplied(x: Item): InsertItem
  {
    InsertItem(x.itemType, x.title, x.description, x.category, x.location, x.contactNumber, x.imageUrl)
  }

  /** The unique constraints of `users`: no two rows share a CNIC, and no two
      rows share a username. */
  ghost predicate UsersUnique(users: map<int, User>)
  {
    forall j, k :: j in users && k in users && j != k ==>
      users[j].cnic != users[k].cnic &&
      (users[j].username.Some? ==> users[j].username != users[k].username)
  }

  /** Adding a row whose CNIC and username are not yet taken keeps the
      unique constraints of `users`. */
  lemma InsertKeepsUnique(users: map<int, User>, u: User)
    requires UsersUnique(users)
    requires u.id !in users
    requires forall k :: k in users ==> users[k].cnic != u.cnic
    requires u.username.Some? ==> forall k :: k in users ==> users[k].username != u.username
    ensures UsersUnique(users[u.id := u])
  {
  }

  // ---------------------------------------------------------------------
  // JavaScript strings
  // ---------------------------------------------------------------------

  /** The `length` of a JavaScript string: UTF-16 code units, so a
      character outside the Basic Multilingual Plane counts twice. */
  function Utf16Length(s: string): (n: nat)
    ensures |s| <= n <= 2 * |s|
  {
    if s == [] then 0
    else (if s[0] as int >= 0x1_0000 then 2 else 1) + Utf16Length(s[1..])
  }

  predicate InBmp(c: char)
  {
    c as int < 0x1_0000
  }

  lemma {:induction false} Utf16LengthOfBmp(s: string)
    requires forall i :: 0 <= i < |s| ==> InBmp(s[i])
    ensures Utf16Length(s) == |s|
  {
    if s != [] {
      Utf16LengthOfBmp(s[1..]);
    }
  }

  /** `\s` of a JavaScript regular expression: the ECMAScript white space
      and line terminator characters. */
  predicate IsJsWhitespace(c: char)
  {
    c == '\t' || c == '\n' || c == '\U{000B}' || c == '\U{000C}' || c == '\r' || c == ' ' ||
    c == '\U{00A0}' || c == '\U{1680}' || ('\U{2000}' <= c <= '\U{200A}') ||
    c == '\U{2028}' || c == '\U{2029}' || c == '\U{202F}' || c == '\U{205F}' ||
    c == '\U{3000}' || c == '\U{FEFF}'
  }

  // ---------------------------------------------------------------------
  // Regular expressions
  // ---------------------------------------------------------------------

  datatype CharClass =
    | Range(lo: char, hi: char)
    | Single(c: char)
    | Whitespace
    | Union(left: CharClass, right: CharClass)

  predicate InClass(cl: CharClass, c: char)
  {
    match cl
    case Range(lo, hi) => lo <= c <= hi
    case Single(d) => c == d
    case Whitespace => IsJsWhitespace(c)
    case Union(a, b) => InClass(a, c) || InClass(b, c)
  }

  /** Regular expressions built from character classes, concatenation, `?`
      and `+`. */
  datatype Pattern =
    | Empty
    | Atom(cl: CharClass)
    | Cat(first: Pattern, second: Pattern)
    | Opt(inner: Pattern)
    | Plus(inner: Pattern)

  /** `p{n}`: n copies of p in a row. */
  function Power(p: Pattern, n: nat): Pattern
  {
    if n == 0 then Empty else Cat(p, Power(p, n - 1))
  }

  /** The pattern, anchored with `^` and `$`, matches the whole of s. */
  predicate Matches(p: Pattern, s: string)
    decreases p, |s|
  {
    match p
    case Empty => s == []
    case Atom(cl) => |s| == 1 && InClass(cl, s[0])
    case Cat(a, b) => exists k :: 0 <= k <= |s| && Matches(a, s[..k]) && Matches(b, s[k..])
    case Opt(a) => s == [] || Matches(a, s)
    case Plus(a) =>
      exists k :: 0 < k <= |s| && Matches(a, s[..k]) && (k == |s| || Matches(Plus(a), s[k..]))
  }

  predicate AllIn(cl: CharClass, s: string)
  {
    forall i :: 0 <= i < |s| ==> InClass(cl, s[i])
  }

  lemma {:induction false} PowerOfAtom(cl: CharClass, n: nat, s: string)
    ensures Matches(Power(Atom(cl), n), s) <==> |s| == n && AllIn(cl, s)
  {
    if n == 0 {
    } else {
      var p := Power(Atom(cl), n);
      assert p == Cat(Atom(cl), Power(Atom(cl), n - 1));
      if Matches(p, s) {
        var k :| 0 <= k <= |s| && Matches(Atom(cl), s[..k]) && Matches(Power(Atom(cl), n - 1), s[k..]);
        assert k == 1;
        PowerOfAtom(cl, n - 1, s[1..]);
        assert s == s[..1] + s[1..];
        forall i | 0 <= i < |s| ensures InClass(cl, s[i]) {
          if i > 0 { assert s[i] == s[1..][i - 1]; }
        }
      }
      if |s| == n && AllIn(cl, s) {
        PowerOfAtom(cl, n - 1, s[1..]);
        assert AllIn(cl, s[1..]) by {
          forall i | 0 <= i < |s[1..]| ensures InClass(cl, s[1..][i]) {
            assert s[1..][i] == s[i + 1];
          }
        }
        assert Matches(Atom(cl), s[..1]);
        assert Matches(p, s);
      }
    }
  }

  lemma {:induction false} PlusOfAtom(cl: CharClass, s: string)
    ensures Matches(Plus(Atom(cl)), s) <==> |s| > 0 && AllIn(cl, s)
    decreases |s|
  {
    var p := Plus(Atom(cl));
    if Matches(p, s) {
      var k :| 0 < k <= |s| && Matches(Atom(cl), s[..k]) && (k == |s| || Matches(p, s[k..]));
      assert k == 1;
      if k < |s| {
        PlusOfAtom(cl, s[1..]);
      }
      forall i | 0 <= i < |s| ensures InClass(cl, s[i]) {
        if i > 0 { assert s[i] == s[1..][i - 1]; }
      }
    }
    if |s| > 0 && AllIn(cl, s) {
      assert Matches(Atom(cl), s[..1]);
      if |s| > 1 {
        PlusOfAtom(cl, s[1..]);
        assert AllIn(cl, s[1..]) by {
          forall i | 0 <= i < |s[1..]| ensures InClass(cl, s[1..][i]) {
            assert s[1..][i] == s[i + 1];
          }
        }
      }
      assert Matches(p, s);
    }
  }

  /** An optional leading character c in front of p. */
  lemma OptionalLead(c: char, p: Pattern, s: string)
    ensures Matches(Cat(Opt(Atom(Single(c))), p), s) <==>
            Matches(p, s) || (|s| > 0 && s[0] == c && Matches(p, s[1..]))
  {
    var lead := Opt(Atom(Single(c)));
    if Matches(Cat(lead, p), s) {
      var k :| 0 <= k <= |s| && Matches(lead, s[..k]) && Matches(p, s[k..]);
      if k == 0 {
        assert s[k..] == s;
      } else {
        assert s[..k] != [];
        assert Matches(Atom(Single(c)), s[..k]);
        assert k == 1 && s[..k][0] == s[0];
      }
    }
    if Matches(p, s) {
      assert s[..0] == [] && s[0..] == s;
      assert Matches(lead, s[..0]);
    } else if |s| > 0 && s[0] == c && Matches(p, s[1..]) {
      assert Matches(Atom(Single(c)), s[..1]);
      assert Matches(lead, s[..1]);
      assert 0 <= 1 <= |s| && Matches(lead, s[..1]) && Matches(p, s[1..]);
    }
  }

  // ---------------------------------------------------------------------
  // Field validation of the insert schemas
  // ---------------------------------------------------------------------

  const Digit := Range('0', '9')

  /** Exactly thirteen decimal digits. */
  const CnicPattern := Power(Atom(Digit), 13)

  /** Letters, digits, underscore and dash. */
  const UsernameClass := Union(Range('a', 'z'), Union(Range('A', 'Z'), Union(Digit, Union(Single('_'), Single('-')))))
  const UsernamePattern := Plus(Atom(UsernameClass))

  /** Digits, white space and dash. */
  const ContactClass := Union(Digit, Union(Whitespace, Single('-')))
  /** An optional '+' followed by one or more characters from ContactClass. */
  const ContactPattern := Cat(Opt(Atom(Single('+'))), Plus(Atom(ContactClass)))

  predicate IsCnic(s: string)
  {
    Matches(CnicPattern, s)
  }

  predicate IsUsername(s: string)
  {
    3 <= Utf16Length(s) <= 50 && Matches(UsernamePattern, s)
  }

  predicate IsPassword(s: string)
  {
    6 <= Utf16Length(s) <= 100
  }

  predicate IsContactNumber(s: string)
  {
    10 <= Utf16Length(s) <= 15 && Matches(ContactPattern, s)
  }

  predicate IsItemType(s: string)
  {
    s == "lost" || s == "found"
  }

  predicate IsCategory(s: string)
  {
    s == "electronics" || s == "clothing" || s == "accessories" || s == "documents" || s == "other"
  }

  predicate IsDigitChar(c: char)
  {
    '0' <= c <= '9'
  }

  predicate IsUsernameChar(c: char)
  {
    'a' <= c <= 'z' || 'A' <= c <= 'Z' || '0' <= c <= '9' || c == '_' || c == '-'
  }

  predicate IsContactChar(c: char)
  {
    '0' <= c <= '9' || IsJsWhitespace(c) || c == '-'
  }

  lemma UsernameClassIs(c: char)
    ensures InClass(UsernameClass, c) <==> IsUsernameChar(c)
  {
    var tail := Union(Single('_'), Single('-'));
    assert InClass(tail, c) <==> c == '_' || c == '-';
    assert InClass(Digit, c) <==> IsDigitChar(c);
    assert InClass(Union(Digit, tail), c) <==> IsDigitChar(c) || c == '_' || c == '-';
    assert InClass(Union(Range('A', 'Z'), Union(Digit, tail)), c) <==>
      'A' <= c <= 'Z' || IsDigitChar(c) || c == '_' || c == '-';
  }

  lemma ContactClassIs(c: char)
    ensures InClass(ContactClass, c) <==> IsContactChar(c)
  {
    assert InClass(ContactClass, c) <==>
      InClass(Digit, c) || InClass(Whitespace, c) || InClass(Single('-'), c);
  }

  lemma CnicExactly(s: string)
    ensures IsCnic(s) <==> |s| == 13 && forall i :: 0 <= i < |s| ==> IsDigitChar(s[i])
  {
    PowerOfAtom(Digit, 13, s);
  }

  lemma UsernameExactly(s: string)
    ensures IsUsername(s) <==> 3 <= |s| <= 50 && forall i :: 0 <= i < |s| ==> IsUsernameChar(s[i])
  {
    PlusOfAtom(UsernameClass, s);
    forall i | 0 <= i < |s| ensures InClass(UsernameClass, s[i]) <==> IsUsernameChar(s[i]) {
      UsernameClassIs(s[i]);
    }
    if AllIn(UsernameClass, s) {
      Utf16LengthOfBmp(s);
    }
  }

  /** For text in the Basic Multilingual Plane the password bounds count
      characters. */
  lemma PasswordOfBmp(s: string)
    requires forall i :: 0 <= i < |s| ==> InBmp(s[i])
    ensures IsPassword(s) <==> 6 <= |s| <= 100
  {
    Utf16LengthOfBmp(s);
  }

  lemma ContactNumberExactly(s: string)
    ensures IsContactNumber(s) <==>
      10 <= |s| <= 15 &&
      ((forall i :: 0 <= i < |s| ==> IsContactChar(s[i])) ||
       (s[0] == '+' && forall i :: 1 <= i < |s| ==> IsContactChar(s[i])))
  {
    OptionalLead('+', Plus(Atom(ContactClass)), s);
    PlusOfAtom(ContactClass, s);
    forall i | 0 <= i < |s| ensures InClass(ContactClass, s[i]) <==> IsContactChar(s[i]) {
      ContactClassIs(s[i]);
    }
    if |s| > 0 {
      PlusOfAtom(ContactClass, s[1..]);
      assert AllIn(ContactClass, s[1..]) <==> forall i :: 1 <= i < |s| ==> IsContactChar(s[i]) by {
        forall i | 1 <= i < |s| ensures s[1..][i - 1] == s[i] { }
        forall i | 0 <= i < |s[1..]| ensures s[1..][i] == s[i + 1] { }
      }
    }
    if (forall i :: 0 <= i < |s| ==> IsContactChar(s[i])) ||
       (|s| > 0 && s[0] == '+' && forall i :: 1 <= i < |s| ==> IsContactChar(s[i])) {
      Utf16LengthOfBmp(s);
    }
  }

  // ---------------------------------------------------------------------
  // Request bodies
  // ---------------------------------------------------------------------

  /** One property of a JSON request body: missing, a string, or any other
      JSON value (null, a number, an object, ...). */
  datatype Field = Absent | Str(text: string) | NonString

  /** The properties of a request body that the item insert schema reads;
      any other property is stripped. */
  datatype ItemBody = ItemBody(
    itemType: Field,
    title: Field,
    description: Field,
    category: Field,
    location: Field,
    contactNumber: Field,
    imageUrl: Field)

  /** The enum, format and length constraints of the item insert schema. */
  predicate IsInsertItem(x: InsertItem)
  {
    IsItemType(x.itemType) && IsCategory(x.category) && IsContactNumber(x.contactNumber)
  }

  /** The request body that carries x. */
  function BodyOf(x: InsertItem): ItemBody
  {
    ItemBody(
      Str(x.itemType), Str(x.title), Str(x.description), Str(x.category),
      Str(x.location), Str(x.contactNumber),
      if x.imageUrl.Some? then Str(x.imageUrl.value) else Absent)
  }

  /** The item insert schema: every field but `imageUrl` must be a string,
      `imageUrl` may be missing, and the values must meet IsInsertItem. The
      schema accepts exactly the bodies that carry a valid item, and then
      yields that item. */
  function ParseInsertItem(b: ItemBody): (r: Option<InsertItem>)
    ensures r.Some? ==> IsInsertItem(r.value) && BodyOf(r.value) == b
    ensures r.None? ==> forall x :: IsInsertItem(x) ==> BodyOf(x) != b
  {
    if b.itemType.Str? && b.title.Str? && b.description.Str? && b.category.Str? &&
       b.location.Str? && b.contactNumber.Str? && !b.imageUrl.NonString?
    then
      var x := InsertItem(
        b.itemType.text, b.title.text, b.description.text, b.category.text,
        b.location.text, b.contactNumber.text,
        if b.imageUrl.Str? then Some(b.imageUrl.text) else None);
      if IsInsertItem(x) then Some(x) else None
    else None
  }

  lemma ParseBodyOf(x: InsertItem)
    ensures ParseInsertItem(BodyOf(x)) == if IsInsertItem(x) then Some(x) else None
  {
  }

  /** The user insert schema on an insert record: username and password
      present and well formed, CNIC well formed. */
  predicate IsInsertUser(u: InsertUser)
  {
    u.username.Some? && IsUsername(u.username.value) &&
    u.password.Some? && IsPassword(u.password.value) &&
    IsCnic(u.cnic)
  }

  /** The user insert schema in terms of characters: a username of 3 to 50
      characters from the username class, a password of 6 to 100 UTF-16
      code units, and a CNIC of exactly 13 digits; a missing username or
      password is rejected. */
  lemma InsertUserExactly(u: InsertUser)
    ensures IsInsertUser(u) <==>
      && u.username.Some? && 3 <= |u.username.value| <= 50
      && (forall i :: 0 <= i < |u.username.value| ==> IsUsernameChar(u.username.value[i]))
      && u.password.Some? && 6 <= Utf16Length(u.password.value) <= 100
      && |u.cnic| == 13 && (forall i :: 0 <= i < |u.cnic| ==> IsDigitChar(u.cnic[i]))
  {
    CnicExactly(u.cnic);
    if u.username.Some? {
      UsernameExactly(u.username.value);
    }
  }
}
