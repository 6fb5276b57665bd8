/** Storing a password as scheme, iteration count, salt and digest, and checking one against that.

    The key derivation is an argument: any function that yields as many bytes as it is asked for, or
    fails. */
module PasswordUtils {
  import opened Wrappers
  import opened Decimals
  import opened Splitting

  type Kdf = (string, seq<bv8>, int, nat) -> Option<seq<bv8>>

  const SALT_BYTES: nat := 16
  const HASH_BYTES: nat := 32
  const ITERATIONS: int := 100000
  const SCHEME := "pbkdf2_sha256"
  const INT_MAX: int := 0x7FFF_FFFF

  datatype Error = InvalidHex | DerivationFailed

  // ---- Hexadecimal ----

  function HexDigit(n: bv8): char {
    if n < 10 then
      if n == 0 then '0' else if n == 1 then '1' else if n == 2 then '2' else if n == 3 then '3'
      else if n == 4 then '4' else if n == 5 then '5' else if n == 6 then '6' else if n == 7 then '7'
      else if n == 8 then '8' else '9'
    else if n == 10 then 'a' else if n == 11 then 'b' else if n == 12 then 'c'
    else if n == 13 then 'd' else if n == 14 then 'e' else 'f'
  }

  function HexValue(c: char): Option<bv8> {
    if c == '0' then Some(0) else if c == '1' then Some(1) else if c == '2' then Some(2)
    else if c == '3' then Some(3) else if c == '4' then Some(4) else if c == '5' then Some(5)
    else if c == '6' then Some(6) else if c == '7' then Some(7) else if c == '8' then Some(8)
    else if c == '9' then Some(9)
    else if c == 'a' || c == 'A' then Some(10) else if c == 'b' || c == 'B' then Some(11)
    else if c == 'c' || c == 'C' then Some(12) else if c == 'd' || c == 'D' then Some(13)
    else if c == 'e' || c == 'E' then Some(14) else if c == 'f' || c == 'F' then Some(15)
    else None
  }

  /** The digits are the usual ones, and capitals are read too. */
  lemma HexDigitsAreStandard(n: bv8)
    requires n < 16
    ensures HexDigit(n) == "0123456789abcdef"[n as int]
    ensures HexValue("0123456789abcdef"[n as int]) == Some(n) && HexValue("0123456789ABCDEF"[n as int]) == Some(n)
    ensures HexValue('g') == None && HexValue('$') == None
  {
  }

  /** Extracting a hexadecimal number from a stream of two characters: leading white space and a sign
      are accepted, a digit followed by something else is read alone, and a bare prefix is nothing. */
  function ReadPair(a: char, b: char): Option<bv8> {
    if IsSpace(a) || a == '+' then HexValue(b)
    else if a == '-' then
      if HexValue(b).Some? then Some(0 - HexValue(b).value) else None
    else if HexValue(a).None? || (a == '0' && (b == 'x' || b == 'X')) then None
    else if HexValue(b).None? then HexValue(a)
    else Some((HexValue(a).value << 4) | HexValue(b).value)
  }

  /** Two digits are a byte, high digit first; a pair that begins with no digit, sign or space is
      refused. */
  lemma PairOfDigits(a: char, b: char)
    ensures HexValue(a).Some? && HexValue(b).Some? ==>
              ReadPair(a, b) == Some(HexValue(a).value * 16 + HexValue(b).value)
    ensures HexValue(a).None? && !IsSpace(a) && a != '+' && a != '-' ==> ReadPair(a, b) == None
    ensures (a == '+' || a == ' ') && HexValue(b).Some? ==> ReadPair(a, b) == HexValue(b)
    ensures a == '-' && HexValue(b).Some? ==>
              ReadPair(a, b).Some? && ReadPair(a, b).value + HexValue(b).value == 0
    ensures HexValue(a).Some? && HexValue(b).None? ==>
              ReadPair(a, b) == if a == '0' && b in {'x', 'X'} then None else HexValue(a)
  {
    if HexValue(a).Some? && HexValue(b).Some? {
      HighAndLow(HexValue(a).value, HexValue(b).value);
      assert !IsSpace(a) && a != '+' && a != '-';
    }
  }

  lemma HighAndLow(high: bv8, low: bv8)
    requires high < 16 && low < 16
    ensures (high << 4) | low == high * 16 + low
  {
  }

  function Hex(data: seq<bv8>): (s: string)
    ensures |s| == 2 * |data|
    ensures forall i :: 0 <= i < |s| ==> s[i] != '$'
  {
    if data == [] then "" else [HexDigit(data[0] >> 4), HexDigit(data[0] & 15)] + Hex(data[1..])
  }

  function Unhex(s: string): Result<seq<bv8>, Error> {
    if |s| % 2 != 0 then Err(InvalidHex)
    else if s == "" then Ok([])
    else
      var first, rest := ReadPair(s[0], s[1]), Unhex(s[2..]);
      if first.None? then Err(InvalidHex) else Prepended([first.value], rest)
  }

  lemma PairRoundTrip(b: bv8)
    ensures ReadPair(HexDigit(b >> 4), HexDigit(b & 15)) == Some(b)
  {
    NibbleRoundTrip(b >> 4);
    NibbleRoundTrip(b & 15);
    assert ((b >> 4) << 4) | (b & 15) == b;
  }

  lemma NibbleRoundTrip(n: bv8)
    requires n < 16
    ensures HexValue(HexDigit(n)) == Some(n)
    ensures !IsSpace(HexDigit(n)) && HexDigit(n) !in {'+', '-', 'x', 'X', '$'}
  {
  }

  lemma UnhexStep(s: string)
    requires |s| % 2 == 0 && s != "" && ReadPair(s[0], s[1]).Some?
    ensures Unhex(s) == Prepended([ReadPair(s[0], s[1]).value], Unhex(s[2..]))
  {
  }

  lemma UnhexHex(b: bv8, rest: string)
    requires |rest| % 2 == 0
    ensures Unhex([HexDigit(b >> 4), HexDigit(b & 15)] + rest) == Prepended([b], Unhex(rest))
  {
    var s := [HexDigit(b >> 4), HexDigit(b & 15)] + rest;
    PairRoundTrip(b);
    assert |s| == |rest| + 2 && s[0] == HexDigit(b >> 4) && s[1] == HexDigit(b & 15) && s[2..] == rest;
    assert ReadPair(s[0], s[1]) == Some(b);
    UnhexStep(s);
  }

  function Prepended(front: seq<bv8>, r: Result<seq<bv8>, Error>): Result<seq<bv8>, Error> {
    match r
    case Ok(rest) => Ok(front + rest)
    case Err(e) => Err(e)
  }

  lemma {:induction false} HexRoundTrip(data: seq<bv8>)
    ensures Unhex(Hex(data)) == Ok(data)
  {
    if data != [] {
      HexRoundTrip(data[1..]);
      UnhexHex(data[0], Hex(data[1..]));
      assert [data[0]] + data[1..] == data;
    }
  }

  lemma {:induction false} HexAppend(data: seq<bv8>, b: bv8)
    ensures Hex(data + [b]) == Hex(data) + [HexDigit(b >> 4), HexDigit(b & 15)]
  {
    if data == [] {
      assert (data + [b])[1..] == [];
    } else {
      assert (data + [b])[1..] == data[1..] + [b];
      HexAppend(data[1..], b);
    }
  }

  lemma {:induction false} HexAt(data: seq<bv8>, i: nat)
    requires i < |data|
    ensures Hex(data)[2 * i] == HexDigit(data[i] >> 4) && Hex(data)[2 * i + 1] == HexDigit(data[i] & 15)
  {
    if i > 0 {
      HexAt(data[1..], i - 1);
    }
  }

  method ToHex(data: seq<bv8>) returns (s: string)
    ensures |s| == 2 * |data|
    ensures forall i :: 0 <= i < |data| ==>
              s[2 * i] == HexDigit(data[i] >> 4) && s[2 * i + 1] == HexDigit(data[i] & 15)
    ensures s == Hex(data)
  {
    s := "";
    for i := 0 to |data|
      invariant s == Hex(data[..i])
    {
      HexAppend(data[..i], data[i]);
      assert data[..i + 1] == data[..i] + [data[i]];
      s := s + [HexDigit(data[i] >> 4), HexDigit(data[i] & 15)];
    }
    assert data[..|data|] == data;
    forall i | 0 <= i < |data|
      ensures s[2 * i] == HexDigit(data[i] >> 4) && s[2 * i + 1] == HexDigit(data[i] & 15)
    {
      HexAt(data, i);
    }
  }

  /** Pair number i of a text. */
  function PairAt(s: string, i: nat): Option<bv8>
    requires 2 * i + 1 < |s|
  {
    ReadPair(s[2 * i], s[2 * i + 1])
  }

  lemma {:induction false} GoodPairsAreBytes(s: string, bytes: seq<bv8>)
    requires |s| == 2 * |bytes| && forall k :: 0 <= k < |bytes| ==> PairAt(s, k) == Some(bytes[k])
    ensures Unhex(s) == Ok(bytes)
  {
    if bytes != [] {
      assert PairAt(s, 0) == Some(bytes[0]);
      forall k | 0 <= k < |bytes| - 1
        ensures PairAt(s[2..], k) == Some(bytes[1..][k])
      {
        assert PairAt(s, k + 1) == Some(bytes[k + 1]);
      }
      GoodPairsAreBytes(s[2..], bytes[1..]);
      UnhexStep(s);
      assert [bytes[0]] + bytes[1..] == bytes;
    }
  }

  lemma {:induction false} BadPairSpoils(s: string, k: nat)
    requires |s| % 2 == 0 && 2 * k + 1 < |s| && PairAt(s, k) == None
    ensures Unhex(s) == Err(InvalidHex)
  {
    if k > 0 {
      assert PairAt(s[2..], k - 1) == PairAt(s, k);
      BadPairSpoils(s[2..], k - 1);
    }
  }

  /** The bytes are the pairs' values; an odd length or one bad pair spoils the whole. */
  method FromHex(s: string) returns (r: Result<seq<bv8>, Error>)
    ensures |s| % 2 != 0 ==> r == Err(InvalidHex)
    ensures |s| % 2 == 0 ==>
              (r.Ok? <==> forall i :: 0 <= i < |s| / 2 ==> PairAt(s, i).Some?)
    ensures r.Ok? ==> 2 * |r.value| == |s| && forall i :: 0 <= i < |r.value| ==> PairAt(s, i) == Some(r.value[i])
    ensures r == Unhex(s)
  {
    if |s| % 2 != 0 {
      return Err(InvalidHex);
    }
    var bytes := [];
    var i := 0;
    while i < |s|
      invariant i <= |s| && 2 * |bytes| == i
      invariant forall k :: 0 <= k < |bytes| ==> PairAt(s, k) == Some(bytes[k])
      decreases |s| - i
    {
      var byte := ReadPair(s[i], s[i + 1]);
      if byte.None? {
        BadPairSpoils(s, |bytes|);
        return Err(InvalidHex);
      }
      bytes := bytes + [byte.value];
      i := i + 2;
    }
    GoodPairsAreBytes(s, bytes);
    return Ok(bytes);
  }

  // ---- Splitting ----

  method Split(s: string, delim: char) returns (parts: seq<string>)
    ensures parts == SplitOn(s, delim)
  {
    parts := [];
    var current := "";
    assert s[0..] == s;
    GlueFacts("", 'x', SplitOn(s, delim));
    for i := 0 to |s|
      invariant SplitOn(s, delim) == parts + Glue(current, SplitOn(s[i..], delim))
    {
      assert s[i..][1..] == s[i + 1..];
      ghost var rest := SplitOn(s[i + 1..], delim);
      GlueFacts(current, s[i], rest);
      if s[i] == delim {
        assert parts + ([current] + rest) == (parts + [current]) + rest;
        parts := parts + [current];
        current := "";
      } else {
        current := current + [s[i]];
      }
    }
    assert s[|s|..] == "";
    assert Glue(current, [""]) == [current] by { assert current + "" == current; }
    parts := parts + [current];
  }

  // ---- Hash and verify ----

  function Formatted(salt: seq<bv8>, digest: seq<bv8>): string {
    SCHEME + "$" + (ToText(ITERATIONS) + "$" + (Hex(salt) + "$" + Hex(digest)))
  }

  lemma FormattedBegins(salt: seq<bv8>, digest: seq<bv8>)
    ensures "pbkdf2_sha256$100000$" <= Formatted(salt, digest) && Count(Formatted(salt, digest), '$') == 3
  {
    IterationsText();
    var tail := Hex(salt) + "$" + Hex(digest);
    assert Formatted(salt, digest) == SCHEME + "$" + ("100000" + "$" + tail);
    assert Formatted(salt, digest)[..21] == "pbkdf2_sha256$100000$";
    SplitFirst(SCHEME, "100000" + "$" + tail, '$');
    SplitFirst("100000", tail, '$');
    SplitFirst(Hex(salt), Hex(digest), '$');
    SplitLast(Hex(digest), '$');
    PartsCount(Formatted(salt, digest), '$');
  }

  lemma IterationsText()
    ensures ToText(ITERATIONS) == "100000"
  {
    TextIsPositional(1, 0);
    TextIsPositional(10, 0);
    TextIsPositional(100, 0);
    TextIsPositional(1000, 0);
    TextIsPositional(10000, 0);
    assert ToText(1) == "1";
  }

  datatype Parsed = Malformed | BadHex | Fields(iterations: int, salt: seq<bv8>, digest: seq<bv8>)

  function ParseStored(stored: string): Parsed {
    var parts := SplitOn(stored, '$');
    if |parts| != 4 || parts[0] != SCHEME || ReadInteger(parts[1], INT_MAX).None? then Malformed
    else if Unhex(parts[2]).Err? || Unhex(parts[3]).Err? then BadHex
    else if Unhex(parts[2]).value == [] || Unhex(parts[3]).value == [] then Malformed
    else Fields(ReadInteger(parts[1], INT_MAX).value, Unhex(parts[2]).value, Unhex(parts[3]).value)
  }

  /** What a check of a password against a stored text answers; bad hexadecimal is an exception. */
  function Verdict(plain: string, stored: string, kdf: Kdf): Result<bool, Error> {
    match ParseStored(stored)
    case Malformed => Ok(false)
    case BadHex => Err(InvalidHex)
    case Fields(iterations, salt, digest) => Ok(kdf(plain, salt, iterations, |digest|) == Some(digest))
  }

  ghost predicate YieldsLength(kdf: Kdf) {
    forall plain, salt, iterations, n ::
      kdf(plain, salt, iterations, n).Some? ==> |kdf(plain, salt, iterations, n).value| == n
  }

  method HashPassword(plain: string, salt: seq<bv8>, kdf: Kdf) returns (r: Result<string, Error>)
    requires |salt| == SALT_BYTES
    ensures r.Ok? <==> kdf(plain, salt, 100000, 32).Some?
    ensures r.Ok? ==> "pbkdf2_sha256$100000$" <= r.value && Count(r.value, '$') == 3
    ensures r == match kdf(plain, salt, ITERATIONS, HASH_BYTES)
                 case Some(digest) => Ok(Formatted(salt, digest))
                 case None => Err(DerivationFailed)
  {
    var out := kdf(plain, salt, ITERATIONS, HASH_BYTES);
    if out.None? {
      return Err(DerivationFailed);
    }
    var saltText := ToHex(salt);
    var digestText := ToHex(out.value);
    FormattedBegins(salt, out.value);
    return Ok(SCHEME + "$" + (ToText(ITERATIONS) + "$" + (saltText + "$" + digestText)));
  }

  lemma XorIsZeroOnlyForEqual(d: bv8, a: bv8, b: bv8)
    ensures (d | (a ^ b)) == 0 <==> d == 0 && a == b
  {
  }

  /** Nothing is accepted against a text that does not begin with the scheme or has not just three
      separators; what is accepted derives the digest in it. */
  method VerifyPassword(plain: string, stored: string, kdf: Kdf) returns (r: Result<bool, Error>)
    requires YieldsLength(kdf)
    ensures !("pbkdf2_sha256$" <= stored) || Count(stored, '$') != 3 ==> r == Ok(false)
    ensures r == Ok(true) ==>
              exists salt, digest, iterations ::
                salt != [] && digest != [] && kdf(plain, salt, iterations, |digest|) == Some(digest)
                && ParseStored(stored) == Fields(iterations, salt, digest)
    ensures r == Verdict(plain, stored, kdf)
  {
    var parts := Split(stored, '$');
    PartsCount(stored, '$');
    FirstPartLeads(stored, '$');
    if |parts| != 4 || parts[0] != SCHEME {
      return Ok(false);
    }
    var iterations := ReadInteger(parts[1], INT_MAX);
    if iterations.None? {
      return Ok(false);
    }
    var salt := FromHex(parts[2]);
    if salt.Err? {
      return Err(InvalidHex);
    }
    var digest := FromHex(parts[3]);
    if digest.Err? {
      return Err(InvalidHex);
    }
    if salt.value == [] || digest.value == [] {
      return Ok(false);
    }
    var out := kdf(plain, salt.value, iterations.value, |digest.value|);
    if out.None? {
      return Ok(false);
    }
    var same := SameBytes(out.value, digest.value);
    return Ok(same);
  }

  /** The comparison that looks at every byte: the differences are collected, not stopped at. */
  method SameBytes(a: seq<bv8>, b: seq<bv8>) returns (same: bool)
    requires |a| == |b|
    ensures same <==> a == b
  {
    var diff: bv8 := 0;
    for i := 0 to |a|
      invariant diff == 0 <==> forall j :: 0 <= j < i ==> a[j] == b[j]
    {
      XorIsZeroOnlyForEqual(diff, a[i], b[i]);
      diff := diff | (a[i] ^ b[i]);
    }
    return diff == 0;
  }

  /** Whatever the salt and the digest, the stored text gives both back. */
  lemma StoredTextRoundTrip(salt: seq<bv8>, digest: seq<bv8>)
    requires salt != [] && digest != []
    ensures ParseStored(Formatted(salt, digest)) == Fields(ITERATIONS, salt, digest)
  {
    var count := ToText(ITERATIONS);
    ReadBack(ITERATIONS, INT_MAX);
    SplitFirst(SCHEME, count + "$" + (Hex(salt) + "$" + Hex(digest)), '$');
    SplitFirst(count, Hex(salt) + "$" + Hex(digest), '$');
    SplitFirst(Hex(salt), Hex(digest), '$');
    SplitLast(Hex(digest), '$');
    HexRoundTrip(salt);
    HexRoundTrip(digest);
  }

  /** A password is accepted against the stored form of another exactly when the two derive the same
      digest under that salt. */
  lemma AcceptedIffSameDerivation(stored: string, p: string, q: string, salt: seq<bv8>, kdf: Kdf)
    requires |salt| == SALT_BYTES && YieldsLength(kdf)
    requires kdf(p, salt, ITERATIONS, HASH_BYTES).Some?
    requires stored == Formatted(salt, kdf(p, salt, ITERATIONS, HASH_BYTES).value)
    ensures Verdict(q, stored, kdf)
            == Ok(kdf(q, salt, ITERATIONS, HASH_BYTES) == kdf(p, salt, ITERATIONS, HASH_BYTES))
  {
    StoredTextRoundTrip(salt, kdf(p, salt, ITERATIONS, HASH_BYTES).value);
  }
}
