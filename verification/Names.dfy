/** Resource names derived from keys: a prefix and 31 hexadecimal digits of a hash. */
module Names {
  import opened Search
  import opened Join

  type Byte = x: int | 0 <= x < 256

  /** What `sha256.Sum256` returns; the hash itself stays opaque. */
  type Digest = d: seq<Byte> | |d| == 32 witness seq(32, _ => 0)

  const HEX_DIGITS: Text := "0123456789abcdef"

  /** The digit count the code keeps: 15 bytes and one nibble. */
  const KEPT: nat := 31

  function Hex(bytes: seq<Byte>): (r: Text)
    ensures |r| == 2 * |bytes|
  {
    if bytes == [] then ""
    else [HEX_DIGITS[bytes[0] / 16], HEX_DIGITS[bytes[0] % 16]] + Hex(bytes[1..])
  }

  lemma HexDigitInjective(i: nat, j: nat)
    requires i < 16 && j < 16 && HEX_DIGITS[i] == HEX_DIGITS[j]
    ensures i == j
  {
  }

  /** Digit 2i shows the high nibble of byte i, digit 2i + 1 the low one. */
  lemma {:induction false} HexAt(bytes: seq<Byte>, i: nat)
    requires i < |bytes|
    ensures Hex(bytes)[2 * i] == HEX_DIGITS[bytes[i] / 16]
    ensures Hex(bytes)[2 * i + 1] == HEX_DIGITS[bytes[i] % 16]
  {
    if i > 0 {
      HexAt(bytes[1..], i - 1);
    }
  }

  /** The digests agree on their first 124 bits. */
  predicate Agree124(d: Digest, e: Digest) {
    d[..15] == e[..15] && d[15] / 16 == e[15] / 16
  }

  /** resourceNameFromKey. */
  function ResourceName(hash: Text -> Digest, prefix: Text, parts: seq<Text>): Text {
    prefix + Hex(hash(Joined(parts)))[..KEPT]
  }

  /** The kept digits of two digests coincide exactly when their first 124 bits do. */
  lemma KeptDigitsEqualExactly(d: Digest, e: Digest)
    ensures Hex(d)[..KEPT] == Hex(e)[..KEPT] <==> Agree124(d, e)
  {
    hide Hex;
    if Hex(d)[..KEPT] == Hex(e)[..KEPT] {
      forall i | 0 <= i < 15
        ensures d[i] == e[i]
      {
        KeptByteEqual(d, e, i);
      }
      HexAt(d, 15);
      HexAt(e, 15);
      assert Hex(d)[..KEPT][30] == Hex(e)[..KEPT][30];
      HexDigitInjective(d[15] / 16, e[15] / 16);
    }
    if Agree124(d, e) {
      forall j | 0 <= j < KEPT
        ensures Hex(d)[j] == Hex(e)[j]
      {
        KeptDigitEqual(d, e, j);
      }
    }
  }

  lemma KeptDigitEqual(d: Digest, e: Digest, j: nat)
    requires j < KEPT && Agree124(d, e)
    ensures Hex(d)[j] == Hex(e)[j]
  {
    hide Hex;
    var i := j / 2;
    HexAt(d, i);
    HexAt(e, i);
    if i < 15 {
      assert d[..15][i] == e[..15][i];
    }
    assert j == 2 * i || j == 2 * i + 1;
  }

  lemma KeptByteEqual(d: Digest, e: Digest, i: nat)
    requires i < 15 && Hex(d)[..KEPT] == Hex(e)[..KEPT]
    ensures d[i] == e[i]
  {
    HexAt(d, i);
    HexAt(e, i);
    assert Hex(d)[..KEPT][2 * i] == Hex(e)[..KEPT][2 * i];
    assert Hex(d)[..KEPT][2 * i + 1] == Hex(e)[..KEPT][2 * i + 1];
    HexDigitInjective(d[i] / 16, e[i] / 16);
    HexDigitInjective(d[i] % 16, e[i] % 16);
  }

  /** Two names are equal exactly when the prefixes are and the digests agree on 124 bits. */
  lemma NamesEqualExactly(hash: Text -> Digest, p: Text, ps: seq<Text>, q: Text, qs: seq<Text>)
    ensures |ResourceName(hash, p, ps)| == |p| + KEPT
    ensures ResourceName(hash, p, ps) == ResourceName(hash, q, qs) <==>
            p == q && Agree124(hash(Joined(ps)), hash(Joined(qs)))
  {
    var d, e := Hex(hash(Joined(ps)))[..KEPT], Hex(hash(Joined(qs)))[..KEPT];
    KeptDigitsEqualExactly(hash(Joined(ps)), hash(Joined(qs)));
    if p + d == q + e {
      assert |p| == |q|;
      assert (p + d)[..|p|] == p && (q + e)[..|q|] == q;
      assert (p + d)[|p|..] == d && (q + e)[|q|..] == e;
    }
  }

  /** Nibble j of the digest, the high one of a byte first. */
  function Nibble(d: Digest, j: nat): int
    requires j < 64
  {
    if j % 2 == 0 then d[j / 2] / 16 else d[j / 2] % 16
  }

  /** The name is the prefix and behind it, digit by digit, the first 31 nibbles of the digest of the key
      in lower-case hexadecimal. */
  lemma NameByCharacter(hash: Text -> Digest, prefix: Text, parts: seq<Text>, j: nat)
    requires j < 31
    ensures var name, n := ResourceName(hash, prefix, parts), Nibble(hash(Joined(parts)), j);
            && prefix <= name && |name| == |prefix| + 31
            && name[|prefix| + j] as int == if n < 10 then '0' as int + n else 'a' as int + n - 10
  {
    var d := hash(Joined(parts));
    HexAt(d, j / 2);
    assert j == 2 * (j / 2) + j % 2;
    hide Hex;
    HexDigitByArithmetic(Nibble(d, j));
  }

  lemma HexDigitByArithmetic(n: nat)
    requires n < 16
    ensures HEX_DIGITS[n] as int == if n < 10 then '0' as int + n else 'a' as int + n - 10
  {
  }

  /** No two different keys of the set share their first 124 hash bits. */
  ghost predicate CollisionFree(hash: Text -> Digest, keys: iset<Text>) {
    forall a, b :: a in keys && b in keys && Agree124(hash(a), hash(b)) ==> a == b
  }

  /** Collision freedom carries over from the hash to the names. */
  lemma NamesInjective(hash: Text -> Digest, keys: iset<Text>, p: Text, ps: seq<Text>, q: Text, qs: seq<Text>)
    requires CollisionFree(hash, keys) && Joined(ps) in keys && Joined(qs) in keys
    requires ps != [] && qs != [] && Separable(ps) && Separable(qs)
    ensures ResourceName(hash, p, ps) == ResourceName(hash, q, qs) <==> p == q && ps == qs
  {
    hide Agree124;
    NamesEqualExactly(hash, p, ps, q, qs);
    JoinInjective(ps, qs);
  }

  // ---------- the two kinds of derived names ----------

  datatype Purpose = PurposeUnset | ReviewSurface | Notification {
    function Name(): Text {
      match this
      case PurposeUnset => "PURPOSE_UNSET"
      case ReviewSurface => "REVIEW_SURFACE"
      case Notification => "NOTIFICATION"
    }
  }

  /** Decimal digits of n, as `%d` prints them. */
  function Digits(n: nat): (r: Text)
    ensures r != "" && '|' !in r && '-' !in r
  {
    if n < 10 then [HEX_DIGITS[n]] else Digits(n / 10) + [HEX_DIGITS[n % 10]]
  }

  function Decimal(n: int): (r: Text)
    ensures '|' !in r
  {
    if n < 0 then "-" + Digits(-n) else Digits(n)
  }

  lemma {:induction false} DigitsInjective(m: nat, n: nat)
    requires Digits(m) == Digits(n)
    ensures m == n
    decreases m
  {
    var x, y := Digits(m), Digits(n);
    LastDigit(m);
    LastDigit(n);
    HexDigitInjective(m % 10, n % 10);
    if m >= 10 {
      DigitsInjective(m / 10, n / 10);
    }
  }

  lemma LastDigit(n: nat)
    ensures Digits(n)[|Digits(n)| - 1] == HEX_DIGITS[n % 10]
    ensures n >= 10 ==> Digits(n)[..|Digits(n)| - 1] == Digits(n / 10) && |Digits(n)| > 1
    ensures n < 10 ==> |Digits(n)| == 1
  {
  }

  lemma DecimalSign(n: int)
    ensures Decimal(n) != "" && (Decimal(n)[0] == '-' <==> n < 0)
  {
    hide Digits;
    if n >= 0 {
      assert Digits(n)[0] in Digits(n);
    }
  }

  lemma DecimalInjective(m: int, n: int)
    requires Decimal(m) == Decimal(n)
    ensures m == n
  {
    hide Digits;
    DecimalSign(m);
    DecimalSign(n);
    if m < 0 {
      assert Decimal(m)[1..] == Digits(-m) && Decimal(n)[1..] == Digits(-n);
      DigitsInjective(-m, -n);
    } else {
      DigitsInjective(m, n);
    }
  }

  /** What a binding is for. */
  datatype BindingKey = BindingKey(requestUid: Text, purpose: Purpose, stepIndex: int, surfaceIndex: int,
                                   recipientUid: Text) {
    function Parts(): seq<Text> {
      [requestUid, purpose.Name(), Decimal(stepIndex), Decimal(surfaceIndex), recipientUid]
    }
  }

  function BindingName(hash: Text -> Digest, key: BindingKey): Text {
    ResourceName(hash, "b", key.Parts())
  }

  function IdentityName(hash: Text -> Digest, integrationUid: Text, externalId: Text): Text {
    ResourceName(hash, "i", [integrationUid, externalId])
  }

  /** The number a decimal text stands for. */
  function Parsed(s: Text): int {
    if s == "" then 0
    else if s[0] == '-' then -ParsedDigits(s[1..])
    else ParsedDigits(s)
  }

  function ParsedDigits(s: Text): int {
    if s == "" then 0 else 10 * ParsedDigits(s[..|s| - 1]) + (s[|s| - 1] as int - '0' as int)
  }

  lemma {:induction false} ParsedOfDigits(n: nat)
    ensures ParsedDigits(Digits(n)) == n
    decreases n
  {
    LastDigit(n);
    HexDigitByArithmetic(n % 10);
    if n >= 10 {
      ParsedOfDigits(n / 10);
    }
  }

  /** Decimals read back as the number they were printed from. */
  lemma ParsedOfDecimal(n: int)
    ensures Parsed(Decimal(n)) == n
  {
    DecimalSign(n);
    if n < 0 {
      ParsedOfDigits(-n);
      assert Decimal(n)[1..] == Digits(-n);
    } else {
      ParsedOfDigits(n);
    }
    hide Digits;
    hide ParsedDigits;
  }

  /** What is hashed: the five fields of a binding, and the two of an identity, in this order. */
  lemma KeyTexts(k: BindingKey, integrationUid: Text, externalId: Text)
    ensures var purpose := match k.purpose
                           case PurposeUnset => "PURPOSE_UNSET"
                           case ReviewSurface => "REVIEW_SURFACE"
                           case Notification => "NOTIFICATION";
            Joined(k.Parts()) == k.requestUid + "|" + purpose + "|" + Decimal(k.stepIndex) + "|"
                                 + Decimal(k.surfaceIndex) + "|" + k.recipientUid
    ensures Joined([integrationUid, externalId]) == integrationUid + "|" + externalId
  {
    hide Decimal;
    var ps := k.Parts();
    assert ps[1..][1..] == ps[2..] && ps[2..][1..] == ps[3..] && ps[3..][1..] == ps[4..];
    assert Joined(ps[4..]) == k.recipientUid;
    assert Joined(ps[3..]) == Decimal(k.surfaceIndex) + "|" + Joined(ps[4..]);
    assert Joined(ps[2..]) == Decimal(k.stepIndex) + "|" + Joined(ps[3..]);
    assert Joined(ps[1..]) == k.purpose.Name() + "|" + Joined(ps[2..]);
    assert [integrationUid, externalId][1..] == [externalId];
  }

  lemma PurposeNameInjective(p: Purpose, q: Purpose)
    ensures p.Name() == q.Name() ==> p == q
    ensures '|' !in p.Name()
  {
    assert |"PURPOSE_UNSET"| == 13 && |"REVIEW_SURFACE"| == 14 && |"NOTIFICATION"| == 12;
  }

  lemma BindingPartsInjective(k: BindingKey, l: BindingKey)
    requires k.Parts() == l.Parts()
    ensures k == l
  {
    var ps, qs := k.Parts(), l.Parts();
    assert ps[0] == qs[0] && ps[1] == qs[1] && ps[2] == qs[2] && ps[3] == qs[3] && ps[4] == qs[4];
    PurposeNameInjective(k.purpose, l.purpose);
    DecimalInjective(k.stepIndex, l.stepIndex);
    DecimalInjective(k.surfaceIndex, l.surfaceIndex);
  }

  /** Bindings share a name exactly when they are the same binding, whatever the recipient's id looks like. */
  lemma BindingNamesInjective(hash: Text -> Digest, keys: iset<Text>, k: BindingKey, l: BindingKey)
    requires '|' !in k.requestUid && '|' !in l.requestUid
    requires CollisionFree(hash, keys) && Joined(k.Parts()) in keys && Joined(l.Parts()) in keys
    ensures BindingName(hash, k) == BindingName(hash, l) <==> k == l
  {
    hide Agree124;
    NamesEqualExactly(hash, "b", k.Parts(), "b", l.Parts());
    BindingHeadSeparable(k);
    BindingHeadSeparable(l);
    JoinInjectiveUpToLast(k.Parts(), l.Parts());
    if k.Parts() == l.Parts() {
      BindingPartsInjective(k, l);
    }
  }

  lemma BindingHeadSeparable(k: BindingKey)
    requires '|' !in k.requestUid
    ensures |k.Parts()| == 5 && Separable(k.Parts()[..4])
  {
    PurposeNameInjective(k.purpose, k.purpose);
    assert k.Parts()[..4] == [k.requestUid, k.purpose.Name(), Decimal(k.stepIndex), Decimal(k.surfaceIndex)];
  }

  /** External ids may contain separators: identity names still tell integrations and ids apart. */
  lemma IdentityNamesInjective(hash: Text -> Digest, keys: iset<Text>, u: Text, x: Text, v: Text, y: Text)
    requires '|' !in u && '|' !in v
    requires CollisionFree(hash, keys) && Joined([u, x]) in keys && Joined([v, y]) in keys
    ensures IdentityName(hash, u, x) == IdentityName(hash, v, y) <==> u == v && x == y
  {
    hide Agree124;
    NamesEqualExactly(hash, "i", [u, x], "i", [v, y]);
    assert [u, x][..1] == [u] && [v, y][..1] == [v];
    JoinInjectiveUpToLast([u, x], [v, y]);
    assert [u, x] == [v, y] ==> [u, x][0] == [v, y][0] && [u, x][1] == [v, y][1];
  }

  /** Binding names begin with b, identity names with i. */
  lemma NamePrefixes(hash: Text -> Digest, k: BindingKey, u: Text, x: Text)
    ensures |BindingName(hash, k)| == |IdentityName(hash, u, x)| == 32
    ensures BindingName(hash, k)[0] == 'b' && IdentityName(hash, u, x)[0] == 'i'
  {
    NameByCharacter(hash, "b", k.Parts(), 0);
    NameByCharacter(hash, "i", [u, x], 0);
  }

  /** A binding and an identity never share a name, whatever the hash does. */
  lemma BindingIsNoIdentity(hash: Text -> Digest, k: BindingKey, u: Text, x: Text)
    ensures BindingName(hash, k) != IdentityName(hash, u, x)
  {
    NamesEqualExactly(hash, "b", k.Parts(), "i", [u, x]);
  }
}
