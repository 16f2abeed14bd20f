/** The two entities, their generated equality and their validation constraints. */
module Models {
  import opened Errors

  /** A user row: store-generated id, display name and a unique email. */
  datatype User = User(id: Option<int>, name: string, email: string)

  /** A project row: store-generated id, unique name, optional description and
      the ordered list of assigned users (never holding a null element). */
  datatype Project = Project(id: Option<int>, name: string, description: Option<string>, users: seq<User>)

  /** String.trim: drops every leading and trailing character at or below U+0020. */
  function Trim(s: string): (r: string)
    ensures |r| <= |s|
    ensures r == [] <==> forall i :: 0 <= i < |s| ==> s[i] <= ' '
    ensures r != [] ==> r[0] > ' ' && r[|r| - 1] > ' '
  {
    var t := TrimStart(s);
    var r := TrimEnd(t);
    assert t != [] ==> t[0] > ' ' && r != [];
    assert r != [] ==> r[0] == t[0];
    r
  }

  /** Drops the leading characters at or below U+0020. */
  function TrimStart(s: string): (r: string)
    ensures |r| <= |s| && r == s[|s| - |r|..]
    ensures forall i :: 0 <= i < |s| - |r| ==> s[i] <= ' '
    ensures r == [] <==> forall i :: 0 <= i < |s| ==> s[i] <= ' '
    ensures r != [] ==> r[0] > ' '
  {
    if |s| > 0 && s[0] <= ' ' then
      var r := TrimStart(s[1..]);
      assert forall i :: 1 <= i < |s| ==> s[i] == s[1..][i - 1];
      r
    else s
  }

  /** Drops the trailing characters at or below U+0020. */
  function TrimEnd(s: string): (r: string)
    ensures |r| <= |s| && r == s[..|r|]
    ensures forall i :: |r| <= i < |s| ==> s[i] <= ' '
    ensures |s| > 0 && s[0] > ' ' ==> |r| > 0
    ensures r != [] ==> r[|r| - 1] > ' '
  {
    if |s| > 0 && s[|s| - 1] <= ' ' then TrimEnd(s[..|s| - 1]) else s
  }

  /** @NotBlank: some character of the text lies above U+0020. */
  predicate NotBlank(s: string)
  {
    exists i :: 0 <= i < |s| && s[i] > ' '
  }

  /** Hibernate Validator checks @NotBlank as "not empty once trimmed"; that
      holds exactly when the text has a character above U+0020. */
  lemma NotBlankIsTrimmedNonEmpty(s: string)
    ensures NotBlank(s) <==> |Trim(s)| > 0
  {
    var t := TrimStart(s);
    if t != [] {
      assert t[0] > ' ';
      assert |TrimEnd(t)| > 0;
    }
  }

  /** The bean-validation constraints of a user; the @Email syntax check is the parameter isEmail. */
  predicate ValidUser(u: User, isEmail: string -> bool)
  {
    NotBlank(u.name) && isEmail(u.email)
  }

  /** The bean-validation constraints of a project (its users cannot be null by construction). */
  predicate ValidProject(p: Project)
  {
    NotBlank(p.name)
  }

  /** User.equals as Lombok's @Data generates it: field by field. */
  function UserEquals(a: User, b: User): (r: bool)
    ensures r <==> a == b
  {
    a.id == b.id && a.name == b.name && a.email == b.email
  }

  /** List.equals over users: the same length and pairwise User.equals. */
  function UsersEqual(a: seq<User>, b: seq<User>): (r: bool)
    ensures r <==> a == b
  {
    if |a| != |b| then false
    else if |a| == 0 then true
    else
      assert a == [a[0]] + a[1..] && b == [b[0]] + b[1..];
      UserEquals(a[0], b[0]) && UsersEqual(a[1..], b[1..])
  }

  /** Project.equals as Lombok's @Data generates it: id, name, description and
      the users compared as ordered lists. */
  function ProjectEquals(a: Project, b: Project): (r: bool)
    ensures r <==> a == b
  {
    a.id == b.id && a.name == b.name && a.description == b.description && UsersEqual(a.users, b.users)
  }

  /** List.contains: some element is User.equals to u. */
  function Contains(s: seq<User>, u: User): (r: bool)
    ensures r <==> u in s
  {
    if |s| == 0 then false
    else
      assert s == [s[0]] + s[1..];
      UserEquals(s[0], u) || Contains(s[1..], u)
  }

  // Long.toString, used where a message names an id.

  function Digit(d: nat): (c: char)
    requires d < 10
    ensures '0' <= c <= '9'
  {
    (d + 48) as char
  }

  /** The decimal digits of n, most significant first, with no leading zero. */
  function Decimal(n: nat): (r: string)
    ensures |r| >= 1
    ensures forall i :: 0 <= i < |r| ==> '0' <= r[i] <= '9'
    ensures n == 0 ==> r == "0"
    ensures n > 0 ==> r[0] != '0'
    decreases n
  {
    if n < 10 then [Digit(n)] else Decimal(n / 10) + [Digit(n % 10)]
  }

  /** Long.toString: a '-' sign for negative values, then the decimal digits. */
  function LongToString(n: int): (r: string)
    ensures |r| >= 1
    ensures r[0] == '-' <==> n < 0
    ensures forall i :: 0 < i < |r| ==> '0' <= r[i] <= '9'
  {
    if n < 0 then "-" + Decimal(-n) else Decimal(n)
  }

  /** Reads a string of decimal digits back as a number. */
  function ParseDecimal(s: string): int
    requires forall i :: 0 <= i < |s| ==> '0' <= s[i] <= '9'
  {
    if |s| == 0 then 0
    else ParseDecimal(s[..|s| - 1]) * 10 + (s[|s| - 1] as int - 48)
  }

  /** Decimal loses nothing: parsing its digits gives the number back. */
  lemma {:induction false} DecimalRoundTrip(n: nat)
    ensures ParseDecimal(Decimal(n)) == n
  {
    if n >= 10 {
      var d := Decimal(n);
      assert d[..|d| - 1] == Decimal(n / 10);
      DecimalRoundTrip(n / 10);
    }
  }

  /** Different ids give different texts, so a message naming an id names exactly one id. */
  lemma LongToStringInjective(a: int, b: int)
    requires LongToString(a) == LongToString(b)
    ensures a == b
  {
    var x: nat, y: nat := if a < 0 then -a else a, if b < 0 then -b else b;
    assert Decimal(x) == Decimal(y) by {
      if a < 0 {
        assert LongToString(a) == "-" + Decimal(x);
        assert LongToString(b) == "-" + Decimal(y);
        assert Decimal(x) == LongToString(a)[1..];
      }
    }
    DecimalRoundTrip(x);
    DecimalRoundTrip(y);
  }
}
