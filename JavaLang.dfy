/** The few pieces of the Java runtime that the logging code leans on, stated
    exactly: signed bytes and the `(byte)` cast, `Arrays.copyOf`,
    `Arrays.copyOfRange`, list flattening and `String.split(":")`. */
module JavaLang {

  /** An unsigned view of a Java `byte` as it travels on the wire. */
  newtype byte = x: int | 0 <= x < 256

  datatype Option<T> = None | Some(value: T)

  /** Java's narrowing cast `(byte) x`: keep the low eight bits. Dafny's `%` is
      Euclidean, so this is the two's-complement truncation also for negative `x`. */
  function ToByte(x: int): (b: byte)
    ensures 0 <= x < 256 ==> b as int == x
    ensures (b as int - x) % 256 == 0
  {
    (x % 256) as byte
  }

  /** The value a Java `byte` variable holds after being incremented `i` times
      from zero: it wraps from 127 to -128. */
  function JavaByte(i: nat): (v: int)
    ensures -128 <= v <= 127
    ensures ToByte(v) == ToByte(i)
  {
    var r := i % 256;
    if r < 128 then r else r - 256
  }

  /** Java's `b++` on a `byte` variable. */
  function IncByte(v: int): (w: int)
    requires -128 <= v <= 127
    ensures -128 <= w <= 127
  {
    if v == 127 then -128 else v + 1
  }

  lemma IncByteStep(i: nat)
    ensures IncByte(JavaByte(i)) == JavaByte(i + 1)
  {
    var q, r := i / 256, i % 256;
    assert i == 256 * q + r;
    if r == 255 {
      assert i + 1 == 256 * (q + 1);
      assert (i + 1) % 256 == 0;
    } else {
      assert i + 1 == 256 * q + (r + 1);
      assert (i + 1) % 256 == r + 1;
    }
  }

  lemma MulMono(i: int, j: int, t: nat)
    requires i <= j
    ensures i * t <= j * t
  {
  }

  lemma MulStep(i: int, t: int)
    ensures (i + 1) * t == i * t + t
  {
  }

  /** `Integer.MAX_VALUE`. */
  const IntMax: int := 0x7fff_ffff

  /** A mathematical integer as a Java `int` holds it: two's-complement wrap-around
      into `-2^31 .. 2^31 - 1`. */
  function JavaInt(x: int): (v: int)
    ensures -IntMax - 1 <= v <= IntMax
    ensures -IntMax - 1 <= x <= IntMax ==> v == x
    ensures (v - x) % 0x1_0000_0000 == 0
  {
    (x + 0x8000_0000) % 0x1_0000_0000 - 0x8000_0000
  }

  /** Java's `int` division `n / d`: the quotient rounded toward zero (Dafny's
      `/` is Euclidean). A zero divisor throws in Java and is excluded here. */
  function JavaDiv(n: int, d: int): int
    requires d != 0
  {
    var a, b := if n < 0 then -n else n, if d < 0 then -d else d;
    if (n < 0) == (d < 0) then a / b else -(a / b)
  }

  /** Java's `n % d`: what the truncated quotient leaves over. */
  function JavaRem(n: int, d: int): int
    requires d != 0
  {
    n - JavaDiv(n, d) * d
  }

  /** For a length and a positive divisor Java's operators are Dafny's. */
  lemma JavaDivPositive(n: nat, d: int)
    requires d > 0
    ensures JavaDiv(n, d) == n / d && JavaRem(n, d) == n % d
  {
  }

  /** A length divided by a negative `int` in Java: the quotient is never positive
      and the remainder is the ordinary one modulo `-d`, so never negative. */
  lemma JavaDivNegative(n: nat, d: int)
    requires d < 0
    ensures JavaDiv(n, d) == -(n / -d) <= 0
    ensures JavaRem(n, d) == n % -d
  {
    var q := n / -d;
    assert JavaDiv(n, d) == -q;
    calc {
      JavaRem(n, d);
      n - (-q) * d;
      n - q * (-d);
      n % -d;
    }
  }

  function Zeros(n: nat): (z: seq<byte>)
    ensures |z| == n
    ensures forall i :: 0 <= i < n ==> z[i] == 0
  {
    seq(n, _ => 0)
  }

  /** `Arrays.copyOf(a, n)`: truncate to `n` elements or pad with zero bytes. */
  function CopyOf(a: seq<byte>, n: nat): (r: seq<byte>)
    ensures |r| == n
    ensures forall i :: 0 <= i < n ==> r[i] == if i < |a| then a[i] else 0
  {
    if n <= |a| then a[..n] else a + Zeros(n - |a|)
  }

  /** `Arrays.copyOfRange(a, from, to)`: elements `from..to`, zero past the end of `a`.
      Java throws when `from > a.length` or `from > to`; those cases are excluded. */
  function CopyOfRange(a: seq<byte>, from: nat, to: nat): (r: seq<byte>)
    requires from <= |a| && from <= to
    ensures |r| == to - from
    ensures forall i :: 0 <= i < to - from ==> r[i] == if from + i < |a| then a[from + i] else 0
  {
    if to <= |a| then a[from..to] else a[from..] + Zeros(to - |a|)
  }

  /** Joining a list of arrays end to end. */
  function Flatten<T>(s: seq<seq<T>>): seq<T>
  {
    if s == [] then [] else s[0] + Flatten(s[1..])
  }

  /** A prefix one element longer is the prefix and that element. */
  lemma PrefixSnoc<T>(s: seq<T>, i: nat)
    requires i < |s|
    ensures s[..i + 1] == s[..i] + [s[i]]
  {
    assert s[..i + 1] == s[..i] + [s[i]];
  }

  lemma {:induction false} FlattenSnoc<T>(s: seq<seq<T>>, x: seq<T>)
    ensures Flatten(s + [x]) == Flatten(s) + x
  {
    if s == [] {
      assert [] + [x] == [x];
    } else {
      assert (s + [x])[1..] == s[1..] + [x];
      FlattenSnoc(s[1..], x);
    }
  }

  lemma {:induction false} FlattenAppend<T>(s: seq<seq<T>>, t: seq<seq<T>>)
    ensures Flatten(s + t) == Flatten(s) + Flatten(t)
  {
    if s == [] {
      assert [] + t == t;
    } else {
      assert (s + t)[1..] == s[1..] + t;
      FlattenAppend(s[1..], t);
    }
  }

  /** Growing the last element of a non-empty list grows the flattening the same way. */
  lemma FlattenExtendLast<T>(s: seq<seq<T>>, x: T)
    requires s != []
    ensures Flatten(s[|s| - 1 := s[|s| - 1] + [x]]) == Flatten(s) + [x]
  {
    var n := |s| - 1;
    assert s == s[..n] + [s[n]];
    assert s[n := s[n] + [x]] == s[..n] + [s[n] + [x]];
    FlattenSnoc(s[..n], s[n]);
    FlattenSnoc(s[..n], s[n] + [x]);
  }

  /** Copying a prefix and then the next range is a copy of the longer prefix. */
  lemma CopyOfThenRange(a: seq<byte>, lo: nat, hi: nat)
    requires lo <= |a| && lo <= hi
    ensures CopyOf(a, lo) + CopyOfRange(a, lo, hi) == CopyOf(a, hi)
  {
    var l, r := CopyOf(a, lo) + CopyOfRange(a, lo, hi), CopyOf(a, hi);
    assert |l| == |r|;
    forall i | 0 <= i < hi ensures l[i] == r[i] {
      if i < lo {
        assert l[i] == CopyOf(a, lo)[i];
      } else {
        assert l[i] == CopyOfRange(a, lo, hi)[i - lo];
      }
    }
  }

  /** A copy at least as long as the source is the source followed by zeros. */
  lemma CopyOfExtends(a: seq<byte>, n: nat)
    requires |a| <= n
    ensures CopyOf(a, n) == a + Zeros(n - |a|)
  {
  }

  // ---------------------------------------------------------------------
  // String.split(":")

  /** Every field between colons, including empty ones: `count(':') + 1` pieces. */
  function Pieces(s: string): (p: seq<string>)
    ensures |p| >= 1
    ensures forall i :: 0 <= i < |p| ==> ':' !in p[i]
    decreases |s|
  {
    if s == [] then [[]]
    else if s[0] == ':' then [[]] + Pieces(s[1..])
    else
      var rest := Pieces(s[1..]);
      [[s[0]] + rest[0]] + rest[1..]
  }

  /** Drop the empty strings at the end of a list, as `String.split` does. */
  function StripTrailingEmpty(p: seq<string>): (r: seq<string>)
    ensures |r| <= |p| && r == p[..|r|]
    ensures r != [] ==> r[|r| - 1] != []
    ensures forall i :: |r| <= i < |p| ==> p[i] == []
  {
    if p == [] then []
    else if p[|p| - 1] == [] then StripTrailingEmpty(p[..|p| - 1])
    else p
  }

  /** Java's `s.split(":")`: a string without a colon comes back whole (even the empty
      string); otherwise the pieces between colons, with trailing empty pieces removed. */
  function SplitColon(s: string): seq<string>
  {
    if ':' !in s then [s] else StripTrailingEmpty(Pieces(s))
  }

  /** Pieces of a string put together with a colon: the colon separates them. */
  lemma {:induction false} PiecesJoin(k: string, v: string)
    requires ':' !in k
    ensures Pieces(k + [':'] + v) == [k] + Pieces(v)
    decreases |k|
  {
    if k == [] {
      assert ([] + [':'] + v)[1..] == v;
    } else {
      assert (k + [':'] + v)[0] == k[0];
      assert (k + [':'] + v)[1..] == k[1..] + [':'] + v;
      PiecesJoin(k[1..], v);
      assert [k[0]] + k[1..] == k;
    }
  }

  lemma {:induction false} PiecesNoColon(v: string)
    requires ':' !in v
    ensures Pieces(v) == [v]
    decreases |v|
  {
    if v != [] {
      PiecesNoColon(v[1..]);
      assert [v[0]] + v[1..] == v;
    }
  }

  // ---------------------------------------------------------------------
  // Integer.toString / String.valueOf(long)

  function DigitChar(d: nat): (c: char)
    requires d < 10
    ensures '0' <= c <= '9' && c as int - '0' as int == d
  {
    ('0' as int + d) as char
  }

  function NatToString(n: nat): (s: string)
    ensures |s| >= 1
    ensures forall i :: 0 <= i < |s| ==> '0' <= s[i] <= '9'
    decreases n
  {
    if n < 10 then [DigitChar(n)] else NatToString(n / 10) + [DigitChar(n % 10)]
  }

  /** The decimal text Java prints for an `int`, with a leading '-' when negative. */
  function IntToString(n: int): (s: string)
    ensures |s| >= 1
    ensures ':' !in s
  {
    if n < 0 then "-" + NatToString(-n) else NatToString(n)
  }

  /** Decimal text is unambiguous: different numbers print differently. */
  lemma {:induction false} NatToStringInjective(n: nat, m: nat)
    requires NatToString(n) == NatToString(m)
    ensures n == m
    decreases n
  {
    var s := NatToString(n);
    if n < 10 {
      assert m < 10;
    } else {
      assert m >= 10;
      var a, b := NatToString(n / 10), NatToString(m / 10);
      assert s == a + [DigitChar(n % 10)] == b + [DigitChar(m % 10)];
      assert a == s[..|s| - 1] == b;
      NatToStringInjective(n / 10, m / 10);
    }
  }

  /** The same for `String.valueOf(long)`: the sign and the digits give the number back. */
  lemma IntToStringInjective(n: int, m: int)
    requires IntToString(n) == IntToString(m)
    ensures n == m
  {
    var s := IntToString(n);
    assert (n < 0) == (s[0] == '-') && (m < 0) == (s[0] == '-');
    if n < 0 {
      assert s[1..] == NatToString(-n) == NatToString(-m);
      NatToStringInjective(-n, -m);
    } else {
      NatToStringInjective(n, m);
    }
  }
}
