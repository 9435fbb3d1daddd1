/** The encoding itself, said without its own helpers: the alphabet, one group as a number, and the order of
    the groups. */
module Base64Laws {
  import opened Prelude
  import opened Base64Wire

  /** Table 1 of RFC 4648. */
  const UPPER := "ABCDEFGHIJKLMNOPQRSTUVWXYZ"
  const LOWER := "abcdefghijklmnopqrstuvwxyz"
  const ALPHABET := UPPER + LOWER + "0123456789+/"

  lemma UpperCase(n: nat)
    requires n < 26
    ensures |UPPER| == 26 && CharOf(n) == UPPER[n]
  {
    assert UPPER[n] as int == 65 + n;
  }

  lemma LowerCase(n: nat)
    requires n < 26
    ensures |LOWER| == 26 && CharOf(n + 26) == LOWER[n]
  {
    assert LOWER[n] as int == 97 + n;
  }

  lemma DigitOrSign(n: nat)
    requires n < 12
    ensures CharOf(n + 52) == "0123456789+/"[n]
  {
    assert n < 10 ==> "0123456789+/"[n] as int == 48 + n;
  }

  lemma Alphabet(n: Sextet)
    ensures |ALPHABET| == 64 && CharOf(n) == ALPHABET[n]
  {
    if n < 26 {
      UpperCase(n);
    } else if n < 52 {
      LowerCase(n - 26);
    } else {
      DigitOrSign(n - 52);
    }
  }

  /** Digits read as a number. */
  ghost function Number(digits: seq<int>, base: int): int {
    if digits == [] then 0 else Number(digits[..|digits| - 1], base) * base + digits[|digits| - 1]
  }

  lemma SextetNumber(v: seq<int>)
    ensures |v| == 1 ==> Number(v, 64) == v[0]
    ensures |v| == 2 ==> Number(v, 64) == 64 * v[0] + v[1]
    ensures |v| == 3 ==> Number(v, 64) == 4096 * v[0] + 64 * v[1] + v[2]
    ensures |v| == 4 ==> Number(v, 64) == 262144 * v[0] + 4096 * v[1] + 64 * v[2] + v[3]
  {
    if |v| > 1 {
      SextetNumber(v[..|v| - 1]);
    }
  }

  lemma ByteNumber(b: seq<int>)
    ensures |b| == 1 ==> Number(b, 256) == b[0]
    ensures |b| == 2 ==> Number(b, 256) == 256 * b[0] + b[1]
    ensures |b| == 3 ==> Number(b, 256) == 65536 * b[0] + 256 * b[1] + b[2]
  {
    if |b| > 1 {
      ByteNumber(b[..|b| - 1]);
    }
  }

  /** The digits of a group as a number to base 64 are its bytes as a number to base 256, filled up with zero
      bits. */
  lemma GroupIsNumber(b: seq<Byte>, v: seq<Sextet>)
    requires 1 <= |b| <= 3 && |v| == |b| + 1
    requires forall i :: 0 <= i < |v| ==> Group(b)[i] == CharOf(v[i])
    ensures |b| == 1 ==> Number(v, 64) == 16 * Number(b, 256)
    ensures |b| == 2 ==> Number(v, 64) == 4 * Number(b, 256)
    ensures |b| == 3 ==> Number(v, 64) == Number(b, 256)
  {
    SextetNumber(v);
    ByteNumber(b);
    forall i | 0 <= i < |v| ensures ValueOf(Group(b)[i]) == v[i] {
      ValueOfChar(v[i]);
    }
    ValueOfChar(b[0] / 4);
    if |b| == 1 {
      ValueOfChar(b[0] % 4 * 16);
    } else if |b| == 2 {
      ValueOfChar(b[0] % 4 * 16 + b[1] / 16);
      ValueOfChar(b[1] % 16 * 4);
    } else {
      ValueOfChar(b[0] % 4 * 16 + b[1] / 16);
      ValueOfChar(b[1] % 16 * 4 + b[2] / 64);
      ValueOfChar(b[2] % 64);
    }
  }

  /** The encoding goes group by group of three bytes, and the one or two that may be left. */
  lemma {:induction false} GroupByGroup(b: seq<Byte>, more: seq<Byte>)
    requires |b| % 3 == 0
    ensures EncodeRaw(b + more) == EncodeRaw(b) + EncodeRaw(more)
    ensures 1 <= |more| <= 3 ==> EncodeRaw(more) == Group(more)
  {
    if |more| == 3 {
      assert more[..3] == more && more[3..] == [];
    }
    if b == [] {
      assert b + more == more;
    } else {
      assert (b + more)[..3] == b[..3] && (b + more)[3..] == b[3..] + more;
      GroupByGroup(b[3..], more);
    }
  }
}
