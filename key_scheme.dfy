/**
 * The cache key format of the bookmark service: the bookmark `id` owned by
 * user `userId` is cached under the string `key:<userId>:<id>`, both numbers
 * written in decimal with a leading `-` for negative numbers. This is how a
 * JavaScript template literal renders an integer of magnitude below 10^21
 * (larger numbers switch to exponent notation). All bookmarks of one user
 * are listed with the Redis glob `key:<userId>:*`.
 *
 * The module proves what the service relies on: the format can be parsed
 * back, so it is injective, and the owner pattern of a user matches exactly
 * the keys built for that user.
 */
module KeyScheme {
  import opened Wrappers

  const KeyPrefix: string := "key:"

  predicate IsDigit(c: char) {
    '0' <= c <= '9'
  }

  predicate AllDigits(s: string) {
    forall i :: 0 <= i < |s| ==> IsDigit(s[i])
  }

  predicate NoColon(s: string) {
    forall i :: 0 <= i < |s| ==> s[i] != ':'
  }

  function DigitChar(d: nat): (c: char)
    requires d < 10
    ensures IsDigit(c) && c as int - '0' as int == d
  {
    ('0' as int + d) as char
  }

  /** Decimal digits of `n`, most significant first, without leading zeros. */
  function NatToDecimal(n: nat): (s: string)
    ensures |s| > 0 && AllDigits(s)
    decreases n
  {
    if n < 10 then [DigitChar(n)] else NatToDecimal(n / 10) + [DigitChar(n % 10)]
  }

  /** The number a string of decimal digits denotes. */
  function DecimalToNat(s: string): nat
    requires AllDigits(s)
  {
    if s == [] then 0
    else DecimalToNat(s[..|s| - 1]) * 10 + (s[|s| - 1] as int - '0' as int)
  }

  lemma {:induction false} NatDecimalRoundTrip(n: nat)
    ensures DecimalToNat(NatToDecimal(n)) == n
    decreases n
  {
    var s := NatToDecimal(n);
    if n < 10 {
      assert s[..|s| - 1] == [];
    } else {
      assert s[..|s| - 1] == NatToDecimal(n / 10);
      NatDecimalRoundTrip(n / 10);
    }
  }

  /** `${n}` for an integer `n` with `-10^21 < n < 10^21`; beyond that JavaScript writes exponent notation. */
  function IntToDecimal(n: int): (s: string)
    ensures |s| > 0 && NoColon(s)
  {
    if n < 0 then "-" + NatToDecimal(-n) else NatToDecimal(n)
  }

  /** Reads back an optionally signed decimal integer. */
  function ParseDecimal(s: string): Option<int> {
    if |s| > 1 && s[0] == '-' && AllDigits(s[1..]) then Some(-(DecimalToNat(s[1..]) as int))
    else if |s| > 0 && AllDigits(s) then Some(DecimalToNat(s))
    else None
  }

  lemma IntDecimalRoundTrip(n: int)
    ensures ParseDecimal(IntToDecimal(n)) == Some(n)
  {
    var s := IntToDecimal(n);
    if n < 0 {
      assert s[1..] == NatToDecimal(-n);
      NatDecimalRoundTrip(-n);
    } else {
      assert IsDigit(s[0]);
      NatDecimalRoundTrip(n);
    }
  }

  /** The cache key of bookmark `bookmarkId` owned by user `userId`, by the numbers it is built from. */
  datatype CacheKey = CacheKey(userId: int, bookmarkId: int)

  /** The Redis key string `key:<userId>:<bookmarkId>` a cache key stands for. */
  function KeyString(k: CacheKey): string {
    KeyPrefix + IntToDecimal(k.userId) + ":" + IntToDecimal(k.bookmarkId)
  }

  /** Position of the first `:` in `s`, or `|s|` when there is none. */
  function ColonIndex(s: string): (i: nat)
    ensures i <= |s|
    ensures i < |s| ==> s[i] == ':'
    ensures forall j :: 0 <= j < i ==> s[j] != ':'
  {
    if s == [] then 0 else if s[0] == ':' then 0 else 1 + ColonIndex(s[1..])
  }

  lemma ColonIndexAfter(a: string, x: string)
    requires NoColon(a)
    ensures ColonIndex(a + ":" + x) == |a|
  {
    var s := a + ":" + x;
    assert s[|a|] == ':';
  }

  /** Splits a cache key into its owner and bookmark numbers. */
  function ParseKey(k: string): Option<CacheKey> {
    if |k| < |KeyPrefix| || k[..|KeyPrefix|] != KeyPrefix then None
    else
      var rest := k[|KeyPrefix|..];
      var i := ColonIndex(rest);
      if i == |rest| then None
      else
        match (ParseDecimal(rest[..i]), ParseDecimal(rest[i + 1..]))
        case (Some(u), Some(b)) => Some(CacheKey(u, b))
        case _ => None
  }

  lemma ParseKeyRoundTrip(key: CacheKey)
    ensures ParseKey(KeyString(key)) == Some(key)
  {
    var userId, bookmarkId := key.userId, key.bookmarkId;
    var du, db := IntToDecimal(userId), IntToDecimal(bookmarkId);
    var k := KeyString(key);
    assert k[..|KeyPrefix|] == KeyPrefix;
    var rest := k[|KeyPrefix|..];
    assert rest == du + ":" + db;
    ColonIndexAfter(du, db);
    assert rest[..|du|] == du;
    assert rest[|du| + 1..] == db;
    IntDecimalRoundTrip(userId);
    IntDecimalRoundTrip(bookmarkId);
  }

  /** Different (owner, bookmark) pairs never share a key string. */
  lemma KeyStringInjective(k1: CacheKey, k2: CacheKey)
    ensures KeyString(k1) == KeyString(k2) ==> k1 == k2
  {
    ParseKeyRoundTrip(k1);
    ParseKeyRoundTrip(k2);
  }

  /** Everything the glob `key:<userId>:*` can match starts with this. */
  function OwnerPrefix(userId: int): string {
    KeyPrefix + IntToDecimal(userId) + ":"
  }

  /**
   * `k` matches the glob `key:<userId>:*`. The rendered `userId` holds no glob
   * metacharacter, so the glob is a literal prefix followed by `*`.
   */
  predicate MatchesOwnerPattern(k: string, userId: int) {
    |OwnerPrefix(userId)| <= |k| && k[..|OwnerPrefix(userId)|] == OwnerPrefix(userId)
  }

  /** Two colon-free fields of which one, followed by `:`, begins the other followed by `:`, are equal. */
  lemma ColonFieldsAgree(a: string, x: string, b: string)
    requires NoColon(a) && NoColon(b)
    requires |b| + 1 <= |a + ":" + x| && (a + ":" + x)[..|b| + 1] == b + ":"
    ensures a == b
  {
    var s := a + ":" + x;
    var tail := s[|b| + 1..];
    assert s == b + ":" + tail;
    ColonIndexAfter(a, x);
    ColonIndexAfter(b, tail);
    assert a == s[..|a|] == b;
  }

  /** The owner pattern of `userId` matches a key exactly when the key was built for `userId`. */
  lemma OwnerPatternMatchesExactly(key: CacheKey, userId: int)
    ensures MatchesOwnerPattern(KeyString(key), userId) <==> key.userId == userId
  {
    var keyOwner, bookmarkId := key.userId, key.bookmarkId;
    var k := KeyString(key);
    var du, dk, db := IntToDecimal(userId), IntToDecimal(keyOwner), IntToDecimal(bookmarkId);
    var p := OwnerPrefix(userId);
    if keyOwner == userId {
      assert k == p + db;
      assert k[..|p|] == p;
    } else if MatchesOwnerPattern(k, userId) {
      var rest := k[|KeyPrefix|..];
      assert rest == dk + ":" + db;
      assert k[..|p|] == p;
      assert p == KeyPrefix + (du + ":");
      assert k[|KeyPrefix|..|p|] == p[|KeyPrefix|..] == du + ":";
      assert rest[..|du| + 1] == k[|KeyPrefix|..|p|];
      ColonFieldsAgree(dk, db, du);
      IntDecimalRoundTrip(userId);
      IntDecimalRoundTrip(keyOwner);
    }
  }
}
