/** Shared vocabulary of the model: outcomes of the services' futures, nullable
    values, Java's 32-bit `int`, and the few `java.lang.String` operations the
    services rely on (lower-casing, `isBlank`, `compareTo`, `Stream.max`). */
module Common {

  /** A `CompletableFuture` read sequentially: it completes with a value or
      fails with the message of the exception the service raises. */
  datatype Result<T> = Ok(value: T) | Err(msg: string)

  /** A Java reference that may be `null`, or an `Optional`. */
  datatype Option<T> = None | Some(value: T)

  /** Values of Java's `int`. */
  const IntMin: int := -0x8000_0000
  const IntMax: int := 0x7FFF_FFFF
  type Int32 = x: int | IntMin <= x <= IntMax

  /** Java `int` arithmetic: the mathematical result, wrapped to 32 bits. */
  function Wrap32(x: int): (r: Int32)
    ensures IntMin <= x <= IntMax ==> r == x
  {
    var m := x % 0x1_0000_0000;
    if m <= IntMax then m else m - 0x1_0000_0000
  }

  /** The wrapped value differs from the mathematical one by a multiple of
      2^32 (kept out of `Wrap32`'s contract: the solver pays for the
      modulus at every use). */
  lemma Wrap32Congruent(x: int)
    ensures (Wrap32(x) - x) % 0x1_0000_0000 == 0
  {
  }

  /** One past the largest `int` is the smallest, and one below the
      smallest is the largest. */
  lemma Wrap32Overflow()
    ensures Wrap32(IntMax + 1) == IntMin
    ensures Wrap32(IntMin - 1) == IntMax
  {
  }

  /** `Character.toLowerCase` restricted to ASCII upper-case letters. */
  function LowerChar(c: char): (d: char)
    ensures 'A' <= c <= 'Z' ==> 'a' <= d <= 'z' && d as int == c as int + 32
    ensures !('A' <= c <= 'Z') ==> d == c
  {
    if 'A' <= c <= 'Z' then (c as int + 32) as char else c
  }

  /** `String.toLowerCase` (ASCII letters only). */
  function ToLower(s: string): (r: string)
    ensures |r| == |s|
    ensures forall i :: 0 <= i < |s| ==> r[i] == LowerChar(s[i])
  {
    if s == [] then [] else [LowerChar(s[0])] + ToLower(s[1..])
  }

  /** `String.equalsIgnoreCase` (ASCII letters only). */
  predicate EqualsIgnoreCase(a: string, b: string)
  {
    ToLower(a) == ToLower(b)
  }

  /** `Character.isWhitespace`: the Unicode space, line and paragraph
      separators except the non-breaking ones, the ASCII controls
      TAB, LF, VT, FF, CR and the four information separators. */
  predicate IsWhitespace(c: char)
  {
    var u := c as int;
    || u == 0x20 || u == 0x1680 || (0x2000 <= u <= 0x2006) || (0x2008 <= u <= 0x200A)
    || u == 0x2028 || u == 0x2029 || u == 0x205F || u == 0x3000
    || (0x09 <= u <= 0x0D) || (0x1C <= u <= 0x1F)
  }

  /** `String.isBlank`: empty or only whitespace. */
  predicate IsBlank(s: string)
  {
    forall i :: 0 <= i < |s| ==> IsWhitespace(s[i])
  }

  /** `a.compareTo(b) <= 0`: lexicographic order, a proper prefix first. */
  predicate StrLe(a: string, b: string)
  {
    if a == [] then true
    else if b == [] then false
    else if a[0] != b[0] then a[0] < b[0]
    else StrLe(a[1..], b[1..])
  }

  lemma {:induction false} StrLeReflexive(a: string)
    ensures StrLe(a, a)
  {
    if a != [] { StrLeReflexive(a[1..]); }
  }

  lemma {:induction false} StrLeTotal(a: string, b: string)
    ensures StrLe(a, b) || StrLe(b, a)
  {
    if a != [] && b != [] && a[0] == b[0] { StrLeTotal(a[1..], b[1..]); }
  }

  lemma {:induction false} StrLeAntisymmetric(a: string, b: string)
    requires StrLe(a, b) && StrLe(b, a)
    ensures a == b
  {
    if a != [] && b != [] {
      StrLeAntisymmetric(a[1..], b[1..]);
      assert a == [a[0]] + a[1..] && b == [b[0]] + b[1..];
    }
  }

  lemma {:induction false} StrLeTransitive(a: string, b: string, c: string)
    requires StrLe(a, b) && StrLe(b, c)
    ensures StrLe(a, c)
  {
    if a != [] && b != [] && c != [] && a[0] == b[0] == c[0] {
      StrLeTransitive(a[1..], b[1..], c[1..]);
    }
  }

  /** The index `Stream.max(comparing(timestamp))` picks in a non-empty list of
      timestamps: the reduction keeps its accumulator on ties, so it is the
      FIRST of the greatest timestamps. */
  function LatestIndex(ts: seq<string>): (k: nat)
    requires |ts| > 0
    ensures k < |ts|
    ensures forall j :: 0 <= j < |ts| ==> StrLe(ts[j], ts[k])
    ensures forall j :: 0 <= j < k ==> !StrLe(ts[k], ts[j])
  {
    if |ts| == 1 then StrLeReflexive(ts[0]); 0
    else
      var n := |ts| - 1;
      var k := LatestIndex(ts[..n]);
      assert forall j :: 0 <= j < n ==> ts[..n][j] == ts[j];
      if StrLe(ts[n], ts[k]) then k
      else
        StrLeTotal(ts[n], ts[k]);
        StrLeReflexive(ts[n]);
        forall j | 0 <= j < |ts| ensures StrLe(ts[j], ts[n]) {
          if j < n { StrLeTransitive(ts[j], ts[k], ts[n]); }
        }
        forall j | 0 <= j < n ensures !StrLe(ts[n], ts[j]) {
          if StrLe(ts[n], ts[j]) { StrLeTransitive(ts[n], ts[j], ts[k]); }
        }
        n
  }

  /** A timestamp appended to a list becomes the latest exactly when it is
      strictly later than every earlier one; otherwise the latest stays. */
  lemma LatestIndexAppend(ts: seq<string>, t: string)
    requires |ts| > 0
    ensures LatestIndex(ts + [t]) == |ts| <==> forall j :: 0 <= j < |ts| ==> !StrLe(t, ts[j])
    ensures LatestIndex(ts + [t]) != |ts| ==> LatestIndex(ts + [t]) == LatestIndex(ts)
  {
    var s := ts + [t];
    assert s[..|ts|] == ts;
    var k := LatestIndex(ts);
    if !StrLe(t, ts[k]) {
      forall j | 0 <= j < |ts| ensures !StrLe(t, ts[j]) {
        if StrLe(t, ts[j]) { StrLeTransitive(t, ts[j], ts[k]); }
      }
    }
  }
}
