/** Text helpers: searching, decimal numbers and dotted IPv4 addresses. */
module Texts {
  import opened Wire

  /** `std::string::find`: the first position of a character, or the length. */
  function Find(s: string, c: char): (i: nat)
    ensures i <= |s|
    ensures i < |s| ==> s[i] == c
    ensures c !in s[..i]
    decreases |s|
  {
    if s == "" || s[0] == c then 0 else 1 + Find(s[1..], c)
  }

  /** The last position of a character, or the length. */
  function FindLast(s: string, c: char): (i: nat)
    ensures i <= |s|
    ensures i < |s| ==> s[i] == c && c !in s[i + 1..]
    ensures i == |s| ==> c !in s
    decreases |s|
  {
    if s == "" then 0
    else if s[|s| - 1] == c then |s| - 1
    else var i := FindLast(s[..|s| - 1], c); if i == |s| - 1 then |s| else i
  }

  lemma FindFirst(before: string, c: char, after: string)
    requires c !in before
    ensures Find(before + [c] + after, c) == |before|
  {
    var s := before + [c] + after;
    var i := Find(s, c);
    assert s[|before|] == c;
    assert forall k | 0 <= k < i :: s[k] == s[..i][k];
    assert forall k | 0 <= k < |before| :: s[k] == before[k];
  }

  lemma FindBefore(s: string, c: char, k: nat)
    requires k < |s| && s[k] == c
    ensures Find(s, c) <= k
  {
    var i := Find(s, c);
    assert forall j | 0 <= j < i :: s[..i][j] == s[j];
  }

  lemma NoneAfter(s: string, c: char, i: nat, j: nat)
    requires i < |s| && j < |s| && c !in s[i + 1..]
    ensures i < j ==> s[j] != c
  {
    if i < j {
      assert s[j] == s[i + 1..][j - i - 1];
    }
  }

  lemma FindFinal(before: string, c: char, after: string)
    requires c !in after
    ensures FindLast(before + [c] + after, c) == |before|
  {
    var s := before + [c] + after;
    var i, n := FindLast(s, c), |before|;
    assert s[n] == c && s[n + 1..] == after;
    NoneAfter(s, c, i, n);
    NoneAfter(s, c, n, i);
  }

  // ------------------------------------------------- texts with two characters between

  /** The first place where `a` is followed by `b`, or the length. */
  function FindPair(s: string, a: char, b: char): (i: nat)
    ensures i <= |s|
    ensures i < |s| ==> i + 1 < |s| && s[i] == a && s[i + 1] == b
    ensures forall j | 0 <= j < i && j + 1 < |s| :: !(s[j] == a && s[j + 1] == b)
  {
    if |s| < 2 then |s|
    else if s[0] == a && s[1] == b then 0
    else 1 + FindPair(s[1..], a, b)
  }

  predicate HasPair(s: string, a: char, b: char) {
    FindPair(s, a, b) < |s|
  }

  /** The pieces of a text between the places where `a` is followed by `b`. */
  function Pieces(s: string, a: char, b: char): (pieces: seq<string>)
    ensures pieces != []
    decreases |s|
  {
    var i := FindPair(s, a, b);
    if i == |s| then [s] else [s[..i]] + Pieces(s[i + 2..], a, b)
  }

  /** The parts with a separator between each two. */
  function Glued(parts: seq<string>, separator: string): string {
    if parts == [] then ""
    else if |parts| == 1 then parts[0]
    else parts[0] + separator + Glued(parts[1..], separator)
  }

  lemma {:induction false} GluedPush(parts: seq<string>, part: string, separator: string)
    requires parts != []
    ensures Glued(parts + [part], separator) == Glued(parts, separator) + separator + part
  {
    if |parts| > 1 {
      GluedPush(parts[1..], part, separator);
      assert (parts + [part])[1..] == parts[1..] + [part];
      var rest := Glued(parts[1..], separator);
      assert parts[0] + separator + (rest + separator + part) == parts[0] + separator + rest + separator + part;
    } else {
      assert (parts + [part])[1..] == [part];
    }
  }

  /** The pair does not begin in any part, also with its first half behind all but the
      last. */
  predicate Separable(parts: seq<string>, a: char, b: char) {
    parts == []
    || (!HasPair(if |parts| == 1 then parts[0] else parts[0] + [a], a, b) && Separable(parts[1..], a, b))
  }

  lemma FirstPiece(part: string, a: char, b: char, rest: string)
    ensures var s := part + [a, b] + rest;
            && FindPair(s, a, b) <= |part|
            && (FindPair(s, a, b) == |part| <==> !HasPair(part + [a], a, b))
            && s[..|part|] == part && s[|part| + 2..] == rest
  {
    var s, t := part + [a, b] + rest, part + [a];
    assert s[|part|] == a && s[|part| + 1] == b;
    assert forall j | 0 <= j <= |part| :: s[j] == t[j];
  }

  lemma PiecesStep(part: string, a: char, b: char, rest: string)
    ensures var pieces := Pieces(part + [a, b] + rest, a, b);
            if HasPair(part + [a], a, b) then pieces[0] != part else pieces == [part] + Pieces(rest, a, b)
  {
    FirstPiece(part, a, b, rest);
    var s := part + [a, b] + rest;
    assert |s[..FindPair(s, a, b)]| == FindPair(s, a, b);
  }

  /** Parts with a separator of two characters between them are read back exactly when
      they are separable. */
  lemma {:induction false} PiecesExactly(parts: seq<string>, a: char, b: char)
    requires parts != []
    ensures Pieces(Glued(parts, [a, b]), a, b) == parts <==> Separable(parts, a, b)
  {
    if |parts| == 1 {
      assert parts == [parts[0]] && parts[1..] == [];
    } else {
      PiecesExactly(parts[1..], a, b);
      PiecesStep(parts[0], a, b, Glued(parts[1..], [a, b]));
      assert parts == [parts[0]] + parts[1..];
      assert forall tail: seq<string> :: ([parts[0]] + tail)[1..] == tail;
    }
  }

  // ---------------------------------------------------------- decimal numbers

  /** `std::to_string` */
  function Digits(n: nat): (s: string)
    ensures s != "" && forall c <- s :: '0' <= c <= '9'
  {
    var last := [(n % 10 + 48) as char];
    if n < 10 then last else Digits(n / 10) + last
  }

  function Number(s: string): int {
    if s == "" then 0 else 10 * Number(s[..|s| - 1]) + (s[|s| - 1] as int - 48)
  }

  lemma {:induction false} NumberOfDigits(n: nat)
    ensures Number(Digits(n)) == n
  {
    var s := Digits(n);
    if n >= 10 {
      assert s[..|s| - 1] == Digits(n / 10);
      NumberOfDigits(n / 10);
    } else {
      assert s[..|s| - 1] == "";
    }
  }

  // -------------------------------------------------------------- addresses

  datatype Ipv4 = Ipv4(a: UInt8, b: UInt8, c: UInt8, d: UInt8)

  const NO_ADDRESS := Ipv4(0, 0, 0, 0)

  function AddressBytes(x: Ipv4): (s: string)
    ensures |s| == 4
  {
    [x.a as char, x.b as char, x.c as char, x.d as char]
  }

  function ReadAddress(s: string): (x: Ipv4)
    requires |s| == 4
  {
    Ipv4(s[0] as int % 256, s[1] as int % 256, s[2] as int % 256, s[3] as int % 256)
  }

  lemma AddressBytesRoundTrip(x: Ipv4)
    ensures ReadAddress(AddressBytes(x)) == x
  {
  }

  /** The printed form of an IPv4 address. */
  function AddressText(x: Ipv4): string {
    Digits(x.a) + "." + (Digits(x.b) + "." + (Digits(x.c) + "." + Digits(x.d)))
  }

  /** The number before the first dot, and what follows the dot. */
  function Cut(s: string): Option<(int, string)> {
    var i := Find(s, '.');
    if i == |s| then None else Some((Number(s[..i]), s[i + 1..]))
  }

  /** `from_string` on the printed form: three dots between four numbers. */
  function ParseAddress(s: string): Option<Ipv4> {
    var a := Cut(s);
    if a.None? then None else
    var b := Cut(a.value.1);
    if b.None? then None else
    var c := Cut(b.value.1);
    if c.None? then None else
    var d := Number(c.value.1);
    if 0 <= a.value.0 < 256 && 0 <= b.value.0 < 256 && 0 <= c.value.0 < 256 && 0 <= d < 256
    then Some(Ipv4(a.value.0, b.value.0, c.value.0, d)) else None
  }

  lemma CutNumber(n: nat, rest: string)
    ensures Cut(Digits(n) + "." + rest) == Some((n, rest))
  {
    var s := Digits(n) + "." + rest;
    FindFirst(Digits(n), '.', rest);
    NumberOfDigits(n);
    assert s[..|Digits(n)|] == Digits(n);
  }

  lemma AddressTextRoundTrip(x: Ipv4)
    ensures ParseAddress(AddressText(x)) == Some(x)
  {
    CutNumber(x.c, Digits(x.d));
    CutNumber(x.b, Digits(x.c) + "." + Digits(x.d));
    CutNumber(x.a, Digits(x.b) + "." + (Digits(x.c) + "." + Digits(x.d)));
    NumberOfDigits(x.d);
    assert Digits(x.a) + "." + (Digits(x.b) + "." + (Digits(x.c) + "." + Digits(x.d))) == AddressText(x);
  }

  /** The printed form has only digits and dots. */
  lemma AddressTextChars(x: Ipv4, c: char)
    requires c in AddressText(x)
    ensures c == '.' || '0' <= c <= '9'
  {
    var s2 := Digits(x.c) + "." + Digits(x.d);
    var s1 := Digits(x.b) + "." + s2;
    assert c in Digits(x.a) + "." || c in s1;
    assert c in s1 ==> c in Digits(x.b) + "." || c in s2;
  }
}
