/**
  Cutting a UTF-8 string to a byte budget without splitting a code point
  (`truncate_utf8_by_bytes`). Encoding follows section 3 of RFC 3629.
 */
module Utf8Cut {
  import opened Bytes

  /** A Unicode scalar value. */
  type Scalar = n: nat | n < 0xD800 || 0xE000 <= n < 0x110000

  function Encode(c: Scalar): (bytes: seq<Byte>)
    ensures 1 <= |bytes| <= 4
    ensures !IsContinuation(bytes[0]) && forall i :: 1 <= i < |bytes| ==> IsContinuation(bytes[i])
  {
    if c < 0x80 then [c]
    else if c < 0x800 then [0xC0 + c / 64, Trail(c)]
    else if c < 0x10000 then [0xE0 + c / 4096, Trail(c / 64), Trail(c)]
    else [0xF0 + c / 262144, Trail(c / 4096), Trail(c / 64), Trail(c)]
  }

  function Trail(n: nat): (b: Byte)
    ensures IsContinuation(b)
  {
    0x80 + n % 64
  }

  predicate IsContinuation(b: Byte) {
    0x80 <= b < 0xC0
  }

  /** The scalar at the head of encoded text. */
  function DecodeFirst(bytes: seq<Byte>): int
    requires |bytes| >= 4
  {
    var a, b, c, d := bytes[0] as int, bytes[1] as int - 0x80, bytes[2] as int - 0x80, bytes[3] as int - 0x80;
    if a < 0x80 then a
    else if a < 0xE0 then (a - 0xC0) * 64 + b
    else if a < 0xF0 then (a - 0xE0) * 4096 + b * 64 + c
    else (a - 0xF0) * 262144 + b * 4096 + c * 64 + d
  }

  const PADDING: seq<Byte> := [0, 0, 0]

  lemma Base64Digits(n: nat)
    ensures n == n / 64 * 64 + n % 64
    ensures n == n / 4096 * 4096 + n / 64 % 64 * 64 + n % 64
    ensures n == n / 262144 * 262144 + n / 4096 % 64 * 4096 + n / 64 % 64 * 64 + n % 64
  {
    var m := n / 64;
    var k := m / 64;
    assert n / 4096 == k && n / 262144 == k / 64;
    assert m == k * 64 + m % 64 && k == k / 64 * 64 + k % 64;
  }

  lemma EncodeDecodes(c: Scalar, rest: seq<Byte>)
    ensures DecodeFirst(Encode(c) + rest + PADDING) == c
  {
    var e := Encode(c);
    var bytes := e + rest + PADDING;
    Base64Digits(c);
    assert bytes[0] == e[0];
    if c >= 0x80 {
      assert bytes[1] == e[1];
      if c >= 0x800 {
        assert bytes[2] == e[2];
        if c >= 0x10000 {
          assert bytes[3] == e[3];
        }
      }
    }
  }

  /** Encoded text determines its scalars. */
  lemma {:induction false} EncodeAllInjective(a: seq<Scalar>, b: seq<Scalar>)
    requires EncodeAll(a) == EncodeAll(b)
    ensures a == b
  {
    if a == [] || b == [] {
      EncodeAllLength(a);
      EncodeAllLength(b);
    } else {
      EncodeDecodes(a[0], EncodeAll(a[1..]));
      EncodeDecodes(b[0], EncodeAll(b[1..]));
      assert EncodeAll(a)[|Encode(a[0])|..] == EncodeAll(a[1..]);
      assert EncodeAll(b)[|Encode(b[0])|..] == EncodeAll(b[1..]);
      EncodeAllInjective(a[1..], b[1..]);
      assert a == [a[0]] + a[1..] && b == [b[0]] + b[1..];
    }
  }

  function EncodeAll(cs: seq<Scalar>): seq<Byte> {
    if cs == [] then [] else Encode(cs[0]) + EncodeAll(cs[1..])
  }

  lemma {:induction false} EncodeAppend(a: seq<Scalar>, b: seq<Scalar>)
    ensures EncodeAll(a + b) == EncodeAll(a) + EncodeAll(b)
  {
    if a == [] {
      assert a + b == b;
    } else {
      assert (a + b)[1..] == a[1..] + b;
      EncodeAppend(a[1..], b);
    }
  }

  /** `str::is_char_boundary`. */
  predicate IsBoundary(bytes: seq<Byte>, i: nat)
    requires i <= |bytes|
  {
    i == 0 || i == |bytes| || !IsContinuation(bytes[i])
  }

  /** The byte offset after the first `k` scalars. */
  function Offset(cs: seq<Scalar>, k: nat): nat
    requires k <= |cs|
  {
    if k == 0 then 0 else |Encode(cs[0])| + Offset(cs[1..], k - 1)
  }

  lemma {:induction false} OffsetIsPrefix(cs: seq<Scalar>, k: nat)
    requires k <= |cs|
    ensures Offset(cs, k) <= |EncodeAll(cs)|
    ensures EncodeAll(cs)[..Offset(cs, k)] == EncodeAll(cs[..k])
  {
    if k > 0 {
      OffsetIsPrefix(cs[1..], k - 1);
      assert cs[..k][1..] == cs[1..][..k - 1];
      assert EncodeAll(cs)[..Offset(cs, k)] == Encode(cs[0]) + EncodeAll(cs[1..])[..Offset(cs[1..], k - 1)];
    }
  }

  ghost predicate IsOffset(cs: seq<Scalar>, i: nat) {
    exists k: nat :: k <= |cs| && Offset(cs, k) == i
  }

  lemma OffsetTail(cs: seq<Scalar>, i: nat)
    requires cs != [] && i >= |Encode(cs[0])|
    ensures IsOffset(cs, i) <==> IsOffset(cs[1..], i - |Encode(cs[0])|)
  {
    var n := |Encode(cs[0])|;
    if IsOffset(cs, i) {
      var k: nat :| k <= |cs| && Offset(cs, k) == i;
      assert Offset(cs[1..], k - 1) == i - n;
    }
    if IsOffset(cs[1..], i - n) {
      var k: nat :| k <= |cs[1..]| && Offset(cs[1..], k) == i - n;
      assert Offset(cs, k + 1) == i;
    }
  }

  /** The character boundaries of encoded text are exactly the offsets of its scalar prefixes. */
  lemma {:induction false} BoundaryIffOffset(cs: seq<Scalar>, i: nat)
    requires i <= |EncodeAll(cs)|
    ensures IsBoundary(EncodeAll(cs), i) <==> IsOffset(cs, i)
  {
    if i == 0 {
      assert Offset(cs, 0) == 0;
    } else {
      var n := |Encode(cs[0])|;
      if i < n {
        assert EncodeAll(cs)[i] == Encode(cs[0])[i];
      } else {
        BoundaryIffOffset(cs[1..], i - n);
        OffsetTail(cs, i);
        if i < |EncodeAll(cs)| {
          assert EncodeAll(cs)[i] == EncodeAll(cs[1..])[i - n];
          if i == n {
            assert EncodeAll(cs[1..])[0] == Encode(cs[1..][0])[0];
          }
        }
      }
    }
  }

  /** How many leading scalars fit into `limit` bytes. */
  function Fitting(cs: seq<Scalar>, limit: nat): (k: nat)
    ensures k <= |cs|
  {
    if cs == [] || |Encode(cs[0])| > limit then 0
    else 1 + Fitting(cs[1..], limit - |Encode(cs[0])|)
  }

  /** `Fitting` is the largest such prefix, and when text is left over it wastes at most 3 bytes. */
  lemma {:induction false} FittingIsLargest(cs: seq<Scalar>, limit: nat)
    ensures Offset(cs, Fitting(cs, limit)) <= limit
    ensures forall k: nat :: Fitting(cs, limit) < k <= |cs| ==> Offset(cs, k) > limit
    ensures Fitting(cs, limit) < |cs| ==> limit - Offset(cs, Fitting(cs, limit)) <= 3
  {
    if cs != [] {
      var n := |Encode(cs[0])|;
      if n > limit {
        forall k: nat | 0 < k <= |cs| ensures Offset(cs, k) > limit {
          assert Offset(cs, k) == n + Offset(cs[1..], k - 1);
        }
      } else {
        FittingIsLargest(cs[1..], limit - n);
        forall k: nat | Fitting(cs, limit) < k <= |cs| ensures Offset(cs, k) > limit {
          assert Offset(cs, k) == n + Offset(cs[1..], k - 1);
        }
      }
    }
  }

  lemma {:induction false} OffsetWhole(cs: seq<Scalar>)
    ensures Offset(cs, |cs|) == |EncodeAll(cs)|
  {
    if cs != [] {
      OffsetWhole(cs[1..]);
    }
  }

  // ---------- the truncation ----------

  /** The decimal digits of a number, as scalars. */
  function Decimal(n: nat): (digits: seq<Scalar>)
    ensures digits != []
    ensures forall i :: 0 <= i < |digits| ==> 0x30 <= digits[i] < 0x3A
  {
    if n < 10 then [0x30 + n] else Decimal(n / 10) + [0x30 + n % 10]
  }

  function Ascii(s: string): (cs: seq<Scalar>)
    requires forall i :: 0 <= i < |s| ==> s[i] < 128 as char
    ensures |cs| == |s| && forall i :: 0 <= i < |cs| ==> cs[i] == s[i] as int < 128
  {
    seq(|s|, i requires 0 <= i < |s| => s[i] as int)
  }

  const ELLIPSIS: Scalar := 0x2026

  /** The marker appended after a cut: an ellipsis and the original byte length. */
  function Marker(length: nat): seq<Scalar> {
    [ELLIPSIS] + Ascii(" [truncated from ") + Decimal(length) + Ascii(" bytes]")
  }

  /** The number that decimal digits spell. */
  function DecimalValue(digits: seq<Scalar>): int {
    if digits == [] then 0 else 10 * DecimalValue(digits[..|digits| - 1]) + digits[|digits| - 1] - 0x30
  }

  lemma {:induction false} DecimalReadsBack(n: nat)
    ensures DecimalValue(Decimal(n)) == n
    ensures n > 0 ==> Decimal(n)[0] != 0x30
  {
    var digits := Decimal(n);
    if n < 10 {
      assert digits[..0] == [];
    } else {
      DecimalReadsBack(n / 10);
      assert digits[..|digits| - 1] == Decimal(n / 10);
    }
  }

  /** The marker says the byte length of the whole text: its digits, without leading zeros, spell the number. */
  lemma MarkerSays(length: nat) returns (digits: seq<Scalar>)
    ensures Marker(length) == [0x2026] + Ascii(" [truncated from ") + digits + Ascii(" bytes]")
    ensures forall i :: 0 <= i < |digits| ==> 0x30 <= digits[i] < 0x3A
    ensures DecimalValue(digits) == length && (length > 0 ==> digits[0] != 0x30)
  {
    digits := Decimal(length);
    DecimalReadsBack(length);
  }

  /** What the function is for: the text itself if it fits, else its longest fitting prefix and the marker. */
  function Truncated(cs: seq<Scalar>, maxBytes: nat): seq<Scalar> {
    if |EncodeAll(cs)| <= maxBytes then cs
    else cs[..Fitting(cs, maxBytes)] + Marker(|EncodeAll(cs)|)
  }

  /** What a text that does not fit is cut to: its longest fitting prefix, and how many bytes it had. */
  lemma CutSays(cs: seq<Scalar>, maxBytes: nat) returns (k: nat, digits: seq<Scalar>)
    requires |EncodeAll(cs)| > maxBytes
    ensures k <= |cs| && Truncated(cs, maxBytes) ==
      cs[..k] + ([0x2026] + Ascii(" [truncated from ") + digits + Ascii(" bytes]"))
    ensures |EncodeAll(cs[..k])| <= maxBytes && forall j: nat :: k < j <= |cs| ==> |EncodeAll(cs[..j])| > maxBytes
    ensures DecimalValue(digits) == |EncodeAll(cs)| && digits[0] != 0x30
    ensures forall i :: 0 <= i < |digits| ==> 0x30 <= digits[i] < 0x3A
  {
    k := Fitting(cs, maxBytes);
    digits := MarkerSays(|EncodeAll(cs)|);
    FittingIsLargest(cs, maxBytes);
    forall j: nat | j <= |cs| ensures |EncodeAll(cs[..j])| == Offset(cs, j) {
      OffsetIsPrefix(cs, j);
    }
  }

  /**
    `truncate_utf8_by_bytes` on the bytes of any text: the loop stops within three decrements at the
    largest boundary not above the limit, so the kept bytes encode exactly a prefix of the scalars.
   */
  method TruncateUtf8ByBytes(input: seq<Byte>, maxBytes: nat, ghost cs: seq<Scalar>) returns (out: seq<Byte>)
    requires input == EncodeAll(cs)
    ensures out == EncodeAll(Truncated(cs, maxBytes))
  {
    if |input| <= maxBytes {
      return input;
    }
    var end := maxBytes;
    ghost var k := Fitting(cs, maxBytes);
    FittingIsLargest(cs, maxBytes);
    OffsetWhole(cs);
    OffsetIsPrefix(cs, k);
    while end > 0 && !IsBoundary(input, end)
      invariant Offset(cs, k) <= end <= maxBytes
      invariant maxBytes - end <= 3
    {
      BoundaryIffOffset(cs, end);
      assert Offset(cs, k) != end;
      end := end - 1;
    }
    BoundaryIffOffset(cs, end);
    assert Offset(cs, 0) == 0;
    ghost var j: nat :| j <= |cs| && Offset(cs, j) == end;
    if j < k {
      OffsetMonotone(cs, j, k);
    }
    EncodeAppend(cs[..k], Marker(|input|));
    out := input[..end] + EncodeAll(Marker(|input|));
  }

  lemma {:induction false} OffsetMonotone(cs: seq<Scalar>, j: nat, k: nat)
    requires j < k <= |cs|
    ensures Offset(cs, j) < Offset(cs, k)
  {
    if j > 0 {
      OffsetMonotone(cs[1..], j - 1, k - 1);
    }
  }

  lemma {:induction false} EncodeAllLength(cs: seq<Scalar>)
    ensures |EncodeAll(cs)| >= |cs|
  {
    if cs != [] {
      EncodeAllLength(cs[1..]);
    }
  }

  /**
    The documented bound "at most `max_bytes` bytes" covers the kept text only: with its marker,
    a result is within the budget exactly when nothing was cut.
   */
  lemma BudgetHeldIffNothingCut(cs: seq<Scalar>, maxBytes: nat)
    ensures |EncodeAll(Truncated(cs, maxBytes))| <= maxBytes <==> |EncodeAll(cs)| <= maxBytes
  {
    if |EncodeAll(cs)| > maxBytes {
      var k := Fitting(cs, maxBytes);
      var marker := Marker(|EncodeAll(cs)|);
      OffsetWhole(cs);
      FittingIsLargest(cs, maxBytes);
      OffsetIsPrefix(cs, k);
      EncodeAppend(cs[..k], marker);
      EncodeAllLength(marker);
      assert |marker| > 3;
    }
  }

  /** A cut result begins with the kept text, and cutting never reorders or alters a scalar. */
  lemma KeptTextIsPrefix(cs: seq<Scalar>, maxBytes: nat)
    ensures var k := if |EncodeAll(cs)| <= maxBytes then |cs| else Fitting(cs, maxBytes);
      && cs[..k] <= Truncated(cs, maxBytes)
      && |EncodeAll(cs[..k])| <= maxBytes
      && (k < |cs| ==> |EncodeAll(cs[..k + 1])| > maxBytes)
  {
    if |EncodeAll(cs)| <= maxBytes {
      assert cs[..|cs|] == cs;
    } else {
      var k := Fitting(cs, maxBytes);
      FittingIsLargest(cs, maxBytes);
      OffsetIsPrefix(cs, k);
      if k < |cs| {
        OffsetIsPrefix(cs, k + 1);
      }
    }
  }
}
