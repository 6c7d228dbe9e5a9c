/** Value types shared by the chat back end: identifiers, optional values,
    decoded token claims, the one-or-none row lookup of the database layer,
    and the small text helpers the payloads and messages are built with. */
module Common {

  /** A user id: the canonical text of the user's UUID primary key, so that
      `str(user.id)` is the id itself. */
  type UserId = string

  /** A point in time, in whole seconds. */
  type Timestamp = int

  datatype Option<+T> = None | Some(value: T)

  /** A JSON value that can stand in a decoded token payload. */
  datatype Claim = Str(s: string) | Num(n: int)

  /** A token payload: claim name to claim value. */
  type Claims = map<string, Claim>

  /** What `scalar_one_or_none()` makes of the rows a query selects:
      nothing, the single row, or the MultipleResultsFound error. */
  datatype Lookup<T> = NoRow | OneRow(row: T) | ManyRows

  function OneOrNone<T>(rows: seq<T>): (r: Lookup<T>)
    ensures r.NoRow? <==> rows == []
    ensures r.OneRow? <==> |rows| == 1
    ensures r.OneRow? ==> r.row == rows[0]
  {
    if |rows| == 0 then NoRow else if |rows| == 1 then OneRow(rows[0]) else ManyRows
  }

  /** Decimal text of a natural number. */
  function NatText(n: nat): (r: string)
    ensures |r| >= 1
    ensures forall i :: 0 <= i < |r| ==> '0' <= r[i] <= '9'
    decreases n
  {
    var d := ['0' + (n % 10) as char];
    if n < 10 then d else NatText(n / 10) + d
  }

  /** Python's `str(n)` for an integer. */
  function IntText(n: int): (r: string)
    ensures |r| >= 1
  {
    if n < 0 then "-" + NatText(-n) else NatText(n)
  }

  /** ASCII lower-casing of one character. */
  function LowerChar(c: char): (r: char)
    ensures 'A' <= c <= 'Z' ==> 'a' <= r <= 'z'
    ensures !('A' <= c <= 'Z') ==> r == c
  {
    if 'A' <= c <= 'Z' then (c as int - 'A' as int + 'a' as int) as char else c
  }

  function Lower(s: string): (r: string)
    ensures |r| == |s|
    ensures forall i :: 0 <= i < |s| ==> r[i] == LowerChar(s[i])
  {
    if s == [] then [] else [LowerChar(s[0])] + Lower(s[1..])
  }

  /** `sub` occurs in `s` as a contiguous run of characters. */
  predicate HasInfix(sub: string, s: string)
    decreases |s|
  {
    sub <= s || (s != [] && HasInfix(sub, s[1..]))
  }

  /** Lexicographic order on text by character code: the order PostgreSQL's
      `least`/`greatest` give canonical UUID texts. */
  predicate TextLe(a: string, b: string)
    decreases |a|
  {
    a == [] || (b != [] && (a[0] < b[0] || (a[0] == b[0] && TextLe(a[1..], b[1..]))))
  }

  lemma {:induction false} TextLeTotal(a: string, b: string)
    ensures TextLe(a, b) || TextLe(b, a)
    decreases |a|
  {
    if a != [] && b != [] && a[0] == b[0] {
      TextLeTotal(a[1..], b[1..]);
    }
  }

  lemma {:induction false} TextLeAntisymmetric(a: string, b: string)
    requires TextLe(a, b) && TextLe(b, a)
    ensures a == b
    decreases |a|
  {
    if a != [] && b != [] {
      TextLeAntisymmetric(a[1..], b[1..]);
      assert a == [a[0]] + a[1..];
      assert b == [b[0]] + b[1..];
    }
  }

  function Least(a: string, b: string): string
  {
    if TextLe(a, b) then a else b
  }

  function Greatest(a: string, b: string): string
  {
    if TextLe(a, b) then b else a
  }

  /** `(least(a, b), greatest(a, b))` names the unordered pair {a, b}: it does
      not depend on the order of its arguments and puts the smaller id first. */
  lemma UnorderedPair(a: string, b: string)
    ensures Least(a, b) == Least(b, a) && Greatest(a, b) == Greatest(b, a)
    ensures {Least(a, b), Greatest(a, b)} == {a, b}
    ensures TextLe(Least(a, b), Greatest(a, b))
  {
    TextLeTotal(a, b);
    if TextLe(a, b) && TextLe(b, a) {
      TextLeAntisymmetric(a, b);
    }
  }
}
