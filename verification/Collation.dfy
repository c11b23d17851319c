/** The "localized" collation, and what it means for text stored as UTF-8. */
module Collation {
  import opened Machine

  // ---------- lexicographic order ----------

  /** The sequences agree before `i`, where the first is less, or ends although the second goes on. */
  ghost predicate LessAt(a: seq<int>, b: seq<int>, i: nat) {
    i <= |a| && i < |b| && a[..i] == b[..i] && (i < |a| ==> a[i] < b[i])
  }

  ghost predicate Less(a: seq<int>, b: seq<int>) {
    exists i: nat :: LessAt(a, b, i)
  }

  lemma LessIsIrreflexive(a: seq<int>)
    ensures !Less(a, a)
  {
  }

  lemma LessIsTransitive(a: seq<int>, b: seq<int>, c: seq<int>)
    requires Less(a, b) && Less(b, c)
    ensures Less(a, c)
  {
    var i: nat :| LessAt(a, b, i);
    var j: nat :| LessAt(b, c, j);
    if i <= j {
      assert b[..j][..i] == c[..j][..i];
      assert b[..i] == b[..j][..i] && c[..i] == c[..j][..i];
      assert i < j ==> b[i] == b[..j][i] == c[i];
      assert LessAt(a, c, i);
    } else {
      assert a[..j] == a[..i][..j] && b[..j] == b[..i][..j];
      assert a[j] == a[..i][j] == b[j];
      assert LessAt(a, c, j);
    }
  }

  /** Two sequences are equal or one of them is less. */
  lemma {:induction false} LessIsTotal(a: seq<int>, b: seq<int>, n: nat)
    requires n <= |a| && n <= |b| && a[..n] == b[..n]
    ensures a == b || Less(a, b) || Less(b, a)
    decreases |a| - n
  {
    if n == |a| {
      if n < |b| { assert LessAt(a, b, n); }
    } else if n == |b| {
      assert LessAt(b, a, n);
    } else if a[n] < b[n] {
      assert LessAt(a, b, n);
    } else if b[n] < a[n] {
      assert LessAt(b, a, n);
    } else {
      assert a[..n + 1] == a[..n] + [a[n]] && b[..n + 1] == b[..n] + [b[n]];
      LessIsTotal(a, b, n + 1);
    }
  }

  // ---------- the collation ----------

  type Memcmp = (seq<byte>, seq<byte>, nat) -> int

  /** What the C standard says of memcmp: the sign is that of the first two bytes that differ. */
  ghost predicate IsMemcmp(memcmp: Memcmp) {
    && (forall a: seq<byte>, b: seq<byte>, n: nat {:trigger memcmp(a, b, n)} ::
          n <= |a| && n <= |b| && a[..n] == b[..n] ==> memcmp(a, b, n) == 0)
    && (forall a: seq<byte>, b: seq<byte>, n: nat, i: nat {:trigger memcmp(a, b, n), LessAt(a, b, i)} ::
          i < n <= |a| && n <= |b| && LessAt(a, b, i) ==> memcmp(a, b, n) < 0)
    && (forall a: seq<byte>, b: seq<byte>, n: nat, i: nat {:trigger memcmp(a, b, n), LessAt(b, a, i)} ::
          i < n <= |a| && n <= |b| && LessAt(b, a, i) ==> memcmp(a, b, n) > 0)
  }

  /** One such function: the difference of the first two bytes that differ. */
  function ByteDifference(a: seq<byte>, b: seq<byte>, n: nat): int
    decreases n
  {
    if n == 0 || a == [] || b == [] then 0
    else if a[0] != b[0] then a[0] as int - b[0] as int
    else ByteDifference(a[1..], b[1..], n - 1)
  }

  lemma {:induction false} ByteDifferenceAt(a: seq<byte>, b: seq<byte>, n: nat, i: nat)
    requires i <= n <= |a| && n <= |b| && a[..i] == b[..i]
    ensures ByteDifference(a, b, n) == if i < n && a[i] != b[i] then a[i] as int - b[i] as int
                                       else ByteDifference(a[i..], b[i..], n - i)
    decreases i
  {
    if i > 0 {
      assert a[0] == a[..i][0] == b[..i][0] == b[0];
      assert a[1..][..i - 1] == a[..i][1..] && b[1..][..i - 1] == b[..i][1..];
      ByteDifferenceAt(a[1..], b[1..], n - 1, i - 1);
      assert a[1..][i - 1..] == a[i..] && b[1..][i - 1..] == b[i..];
    } else {
      assert a[0..] == a && b[0..] == b;
    }
  }

  lemma ByteDifferenceIsMemcmp()
    ensures IsMemcmp(ByteDifference)
  {
    hide ByteDifference;
    forall a: seq<byte>, b: seq<byte>, n: nat | n <= |a| && n <= |b| && a[..n] == b[..n]
      ensures ByteDifference(a, b, n) == 0
    {
      ByteDifferenceAt(a, b, n, n);
      NoDifference(a[n..], b[n..]);
    }
    forall a: seq<byte>, b: seq<byte>, n: nat, i: nat | i < n <= |a| && n <= |b| && LessAt(a, b, i)
      ensures ByteDifference(a, b, n) < 0
    {
      ByteDifferenceAt(a, b, n, i);
    }
    forall a: seq<byte>, b: seq<byte>, n: nat, i: nat | i < n <= |a| && n <= |b| && LessAt(b, a, i)
      ensures ByteDifference(a, b, n) > 0
    {
      ByteDifferenceAt(a, b, n, i);
    }
  }

  lemma NoDifference(a: seq<byte>, b: seq<byte>)
    ensures ByteDifference(a, b, 0) == 0
  {
  }

  function CollLocalized(memcmp: Memcmp, key1: seq<byte>, key2: seq<byte>): int {
    var n := if |key1| < |key2| then |key1| else |key2|;
    var rc := memcmp(key1, key2, n);
    if rc == 0 then |key1| - |key2| else rc
  }

  lemma LessNegative(memcmp: Memcmp, a: seq<byte>, b: seq<byte>)
    requires IsMemcmp(memcmp) && Less(a, b)
    ensures CollLocalized(memcmp, a, b) < 0 && CollLocalized(memcmp, b, a) > 0
  {
  }

  /** The sign of the collation is lexicographic order of bytes, a prefix being less; zero is equality. */
  lemma CollationSign(memcmp: Memcmp, a: seq<byte>, b: seq<byte>)
    requires IsMemcmp(memcmp)
    ensures CollLocalized(memcmp, a, b) < 0 <==> Less(a, b)
    ensures CollLocalized(memcmp, a, b) == 0 <==> a == b
    ensures CollLocalized(memcmp, a, b) > 0 <==> Less(b, a)
  {
    LessIsTotal(a, b, 0);
    if a == b {
      LessIsIrreflexive(a);
      assert a[..|a|] == b[..|a|];
    } else if Less(a, b) {
      LessNegative(memcmp, a, b);
      if Less(b, a) { LessNegative(memcmp, b, a); }
    } else {
      LessNegative(memcmp, b, a);
    }
  }

  /** The laws SQLite requires of every collating function. */
  lemma CollationLaws(memcmp: Memcmp, a: seq<byte>, b: seq<byte>, c: seq<byte>)
    requires IsMemcmp(memcmp)
    ensures CollLocalized(memcmp, a, b) == 0 ==> CollLocalized(memcmp, b, a) == 0
    ensures CollLocalized(memcmp, a, b) == 0 && CollLocalized(memcmp, b, c) == 0 ==> CollLocalized(memcmp, a, c) == 0
    ensures CollLocalized(memcmp, a, b) < 0 <==> CollLocalized(memcmp, b, a) > 0
    ensures CollLocalized(memcmp, a, b) < 0 && CollLocalized(memcmp, b, c) < 0 ==> CollLocalized(memcmp, a, c) < 0
  {
    CollationSign(memcmp, a, b);
    CollationSign(memcmp, b, a);
    CollationSign(memcmp, b, c);
    CollationSign(memcmp, a, c);
    if Less(a, b) && Less(b, c) { LessIsTransitive(a, b, c); }
  }

  // ---------- UTF-8 keys ----------

  type scalar = x: int | 0 <= x < 0xd800 || 0xe000 <= x < 0x11_0000

  /** Section 3 of RFC 3629: six bits to each byte after the first. */
  function Utf8(c: scalar): seq<byte> {
    if c < 0x80 then [c]
    else if c < 0x800 then [0xc0 + c / 0x40, Six(c)]
    else if c < 0x1_0000 then [0xe0 + c / 0x40 / 0x40, Six(c / 0x40), Six(c)]
    else [0xf0 + c / 0x40 / 0x40 / 0x40, Six(c / 0x40 / 0x40), Six(c / 0x40), Six(c)]
  }

  function Six(x: nat): byte {
    0x80 + x % 0x40
  }

  /** The encoding as the table of section 3 gives it: the ranges, the lead bytes, and the bits of the scalar. */
  lemma Utf8IsTable(c: scalar)
    ensures var e: seq<int> := Utf8(c);
      && 1 <= |e| <= 4 && (forall i :: 1 <= i < |e| ==> 0x80 <= e[i] <= 0xbf)
      && match |e|
         case 1 => c <= 0x7f && c == e[0]
         case 2 => 0x80 <= c <= 0x7ff && 0xc0 <= e[0] <= 0xdf && c == (e[0] - 0xc0) * 0x40 + (e[1] - 0x80)
         case 3 =>
           0x800 <= c <= 0xffff && 0xe0 <= e[0] <= 0xef &&
           c == (e[0] - 0xe0) * 0x1000 + (e[1] - 0x80) * 0x40 + (e[2] - 0x80)
         case _ =>
           0x1_0000 <= c <= 0x10_ffff && 0xf0 <= e[0] <= 0xf7 &&
           c == (e[0] - 0xf0) * 0x4_0000 + (e[1] - 0x80) * 0x1000 + (e[2] - 0x80) * 0x40 + (e[3] - 0x80)
  {
  }

  function Encode(text: seq<scalar>): seq<byte> {
    if text == [] then [] else Utf8(text[0]) + Encode(text[1..])
  }

  lemma SixBits(c: nat, d: nat)
    requires c < d
    ensures c / 0x40 < d / 0x40 || (c / 0x40 == d / 0x40 && Six(c) < Six(d))
  {
  }

  /** The encodings of a smaller and a greater scalar differ at a byte that both have, and there the smaller is less. */
  lemma Utf8Order(c: scalar, d: scalar) returns (i: nat)
    requires c < d
    ensures i < |Utf8(c)| && i < |Utf8(d)| && LessAt(Utf8(c), Utf8(d), i)
  {
    Utf8IsTable(c);
    Utf8IsTable(d);
    hide Utf8;
    if |Utf8(c)| != |Utf8(d)| || |Utf8(c)| == 1 {
      i := 0;
    } else if |Utf8(c)| == 2 {
      i := Utf8Order2(c, d);
    } else if |Utf8(c)| == 3 {
      i := Utf8Order3(c, d);
    } else {
      i := Utf8Order4(c, d);
    }
  }

  lemma Utf8Order2(c: scalar, d: scalar) returns (i: nat)
    requires c < d && |Utf8(c)| == |Utf8(d)| == 2
    ensures i < 2 && LessAt(Utf8(c), Utf8(d), i)
  {
    SixBits(c, d);
    i := if c / 0x40 == d / 0x40 then 1 else 0;
  }

  lemma Utf8Order3(c: scalar, d: scalar) returns (i: nat)
    requires c < d && |Utf8(c)| == |Utf8(d)| == 3
    ensures i < 3 && LessAt(Utf8(c), Utf8(d), i)
  {
    SixBits(c, d);
    if c / 0x40 == d / 0x40 {
      i := 2;
    } else {
      SixBits(c / 0x40, d / 0x40);
      i := if c / 0x40 / 0x40 == d / 0x40 / 0x40 then 1 else 0;
    }
  }

  lemma Utf8Order4(c: scalar, d: scalar) returns (i: nat)
    requires c < d && |Utf8(c)| == |Utf8(d)| == 4
    ensures i < 4 && LessAt(Utf8(c), Utf8(d), i)
  {
    SixBits(c, d);
    if c / 0x40 == d / 0x40 {
      i := 3;
    } else {
      SixBits(c / 0x40, d / 0x40);
      if c / 0x40 / 0x40 == d / 0x40 / 0x40 {
        i := 2;
      } else {
        SixBits(c / 0x40 / 0x40, d / 0x40 / 0x40);
        i := if c / 0x40 / 0x40 / 0x40 == d / 0x40 / 0x40 / 0x40 then 1 else 0;
      }
    }
  }

  lemma LessAtExtends(a: seq<int>, b: seq<int>, a': seq<int>, b': seq<int>, i: nat)
    requires LessAt(a, b, i) && i < |a|
    ensures Less(a + a', b + b')
  {
    assert (a + a')[..i] == a[..i] && (b + b')[..i] == b[..i];
    assert LessAt(a + a', b + b', i);
  }

  lemma LessAfterPrefix(p: seq<int>, a: seq<int>, b: seq<int>)
    requires Less(a, b)
    ensures Less(p + a, p + b)
  {
    var i: nat :| LessAt(a, b, i);
    assert (p + a)[..|p| + i] == p + a[..i] && (p + b)[..|p| + i] == p + b[..i];
    assert LessAt(p + a, p + b, |p| + i);
  }

  lemma {:induction false} EncodingKeepsOrder(s: seq<scalar>, t: seq<scalar>)
    requires Less(s, t)
    ensures Less(Encode(s), Encode(t))
  {
    var i: nat :| LessAt(s, t, i);
    if s == [] {
      assert LessAt(Encode(s), Encode(t), 0);
    } else if i == 0 {
      var k := Utf8Order(s[0], t[0]);
      LessAtExtends(Utf8(s[0]), Utf8(t[0]), Encode(s[1..]), Encode(t[1..]), k);
    } else {
      assert s[0] == s[..i][0] == t[..i][0] == t[0];
      assert s[1..][..i - 1] == s[..i][1..] && t[1..][..i - 1] == t[..i][1..];
      assert LessAt(s[1..], t[1..], i - 1);
      EncodingKeepsOrder(s[1..], t[1..]);
      LessAfterPrefix(Utf8(s[0]), Encode(s[1..]), Encode(t[1..]));
    }
  }

  /** On UTF-8 keys the collation compares texts by code points, and only equal texts are equal. */
  lemma CollationOrdersText(memcmp: Memcmp, s: seq<scalar>, t: seq<scalar>)
    requires IsMemcmp(memcmp)
    ensures CollLocalized(memcmp, Encode(s), Encode(t)) < 0 <==> Less(s, t)
    ensures CollLocalized(memcmp, Encode(s), Encode(t)) == 0 <==> s == t
    ensures CollLocalized(memcmp, Encode(s), Encode(t)) > 0 <==> Less(t, s)
  {
    CollationSign(memcmp, Encode(s), Encode(t));
    LessIsTotal(s, t, 0);
    if Less(s, t) {
      EncodingKeepsOrder(s, t);
      if Less(t, s) { LessIsTransitive(s, t, s); LessIsIrreflexive(s); }
    } else if Less(t, s) {
      EncodingKeepsOrder(t, s);
    }
  }
}
