/** Server keys, their rotation, and the cookies sealed under them. */
module KeySets {
  import opened Bytes
  import opened EncryptedFields

  const WORD32 := 0x1_0000_0000

  function WrappingAdd(a: U32, b: U32): U32 {
    (a + b) % WORD32
  }

  function WrappingSub(a: U32, b: U32): U32 {
    (a - b) % WORD32
  }

  /** `as u32`. */
  function Low32(n: nat): (r: U32)
    ensures n < WORD32 ==> r == n
  {
    n % WORD32
  }

  function SaturatingSub(a: nat, b: nat): nat {
    if a < b then 0 else a - b
  }

  datatype Algorithm = AesSivCmac256 | AesSivCmac512 | UnknownAlgorithm(id: U16)

  function AlgorithmFrom(id: U16): Algorithm {
    if id == 15 then AesSivCmac256 else if id == 17 then AesSivCmac512 else UnknownAlgorithm(id)
  }

  function AlgorithmId(a: Algorithm): U16 {
    match a
    case AesSivCmac256 => 15
    case AesSivCmac512 => 17
    case UnknownAlgorithm(id) => id
  }

  function KeyWidth(a: Algorithm): nat {
    if a == AesSivCmac256 then 32 else 64
  }

  /** What a cookie holds: the algorithm and the two keys of a session. */
  datatype Cookie = Cookie(algorithm: Algorithm, s2c: Bytes, c2s: Bytes)

  predicate ProperCookie(c: Cookie) {
    !c.algorithm.UnknownAlgorithm? && |c.s2c| == |c.c2s| == KeyWidth(c.algorithm)
  }

  function Plaintext(c: Cookie): Bytes {
    ToU16(AlgorithmId(c.algorithm)) + c.s2c + c.c2s
  }

  /** A key gives a cipher; `siv` is the construction. */
  type Siv = Bytes -> Cipher

  ghost predicate ProperSiv(siv: Siv) {
    forall key :: Opens(siv(key), siv(key))
  }

  datatype KeySet = KeySet(keys: seq<Bytes>, idOffset: U32, primary: U32)

  function EncodeCookie(ks: KeySet, siv: Siv, c: Cookie, nonce: Bytes): Bytes
    requires ks.primary < |ks.keys|
  {
    var sealed := siv(ks.keys[ks.primary]).seal(nonce, [], Plaintext(c));
    ToU32(WrappingAdd(ks.primary, ks.idOffset)) + ToU16(|sealed| % 0x1_0000) + (nonce + sealed)
  }

  function DecodePlaintext(p: Bytes): (r: Option<Cookie>) {
    if |p| < 2 then None
    else
      var a := AlgorithmFrom(FromU16(p[0], p[1]));
      var width := KeyWidth(a);
      if a.UnknownAlgorithm? || |p| - 2 != 2 * width then None
      else Some(Cookie(a, p[2..2 + width], p[2 + width..]))
  }

  function DecodeCookie(ks: KeySet, siv: Siv, cookie: Bytes): (r: Option<Cookie>) {
    if |cookie| < 4 + 2 + NONCE_LENGTH then None
    else
      var id := WrappingSub(FromU32(cookie[..4]), ks.idOffset);
      if id >= |ks.keys| then None
      else
        var length := FromU16(cookie[4], cookie[5]);
        if 22 + length > |cookie| then None
        else
          match siv(ks.keys[id]).open(cookie[6..22], [], cookie[22..22 + length])
          case None => None
          case Some(p) => DecodePlaintext(p)
  }

  /** The loopless part of the source's in-place editing: the buffer grows, the plain text makes
      way for the header, nonce and ciphertext replace it, and the header is filled in. */
  method EncodeCookieInPlace(ks: KeySet, siv: Siv, c: Cookie, nonce: Bytes) returns (output: Bytes)
    requires ks.primary < |ks.keys| && ProperSiv(siv) && |nonce| == NONCE_LENGTH
    ensures output == EncodeCookie(ks, siv, c, nonce)
  {
    hide Plaintext, ToU32, ToU16, Zeros;
    output := Plaintext(c);
    var n := |output|;
    output := output + Zeros(2 + 4 + 16 + 16);
    output := output[..6] + output[..n] + output[6 + n..];
    assert output[6..6 + n] == Plaintext(c);
    var cipher := siv(ks.keys[ks.primary]);
    assert |cipher.seal(nonce, [], output[6..6 + n])| == n + TAG_LENGTH;
    output := Sealed(output, cipher, n, nonce);
    output := FillHeader(output, WrappingAdd(ks.primary, ks.idOffset), (n + TAG_LENGTH) % 0x1_0000);
  }

  /** The buffer with the `n` bytes behind the header sealed in place. */
  function Sealed(buffer: Bytes, cipher: Cipher, n: nat, nonce: Bytes): Bytes
    requires 6 + n <= |buffer|
  {
    buffer[..6] + (nonce + cipher.seal(nonce, [], buffer[6..6 + n]))
  }

  function FillHeader(buffer: Bytes, id: U32, length: U16): (r: Bytes)
    requires |buffer| >= 6
  {
    ToU32(id) + ToU16(length) + buffer[6..]
  }

  lemma PlaintextReadBack(c: Cookie)
    requires ProperCookie(c)
    ensures DecodePlaintext(Plaintext(c)) == Some(c) && |Plaintext(c)| <= 130
  {
    var p, id := Plaintext(c), ToU16(AlgorithmId(c.algorithm));
    assert p[0] == id[0] && p[1] == id[1];
    var w := KeyWidth(c.algorithm);
    assert p[2..2 + w] == c.s2c && p[2 + w..] == c.c2s;
  }

  lemma DecodedProper(ks: KeySet, siv: Siv, cookie: Bytes)
    requires DecodeCookie(ks, siv, cookie).Some?
    ensures ProperCookie(DecodeCookie(ks, siv, cookie).value)
  {
    hide FromU16, FromU32;
  }

  function LengthFor(c: Cookie): nat {
    if c.algorithm == AesSivCmac256 then 104 else 168
  }

  /** Cookies take 104 or 168 bytes, by the algorithm of their keys. */
  lemma CookieLength(ks: KeySet, siv: Siv, c: Cookie, nonce: Bytes)
    requires ks.primary < |ks.keys| && ProperSiv(siv) && ProperCookie(c) && |nonce| == NONCE_LENGTH
    ensures |EncodeCookie(ks, siv, c, nonce)| == LengthFor(c)
  {
    hide ToU32, ToU16;
    var key := ks.keys[ks.primary];
    assert Opens(siv(key), siv(key));
    assert |siv(key).seal(nonce, [], Plaintext(c))| == |Plaintext(c)| + TAG_LENGTH;
  }

  /** A key set that still holds, under the cookie's identifier, the key that sealed it, gives back
      what was sealed. */
  lemma DecodeWith(ks: KeySet, other: KeySet, siv: Siv, c: Cookie, nonce: Bytes)
    requires ks.primary < |ks.keys| && ProperSiv(siv) && ProperCookie(c) && |nonce| == NONCE_LENGTH
    ensures var id := WrappingSub(WrappingAdd(ks.primary, ks.idOffset), other.idOffset);
            var r := DecodeCookie(other, siv, EncodeCookie(ks, siv, c, nonce));
            && (id >= |other.keys| ==> r == None)
            && (id < |other.keys| && other.keys[id] == ks.keys[ks.primary] ==> r == Some(c))
  {
    hide Plaintext, DecodePlaintext;
    PlaintextReadBack(c);
    var key := ks.keys[ks.primary];
    var sealed := siv(key).seal(nonce, [], Plaintext(c));
    assert Opens(siv(key), siv(key));
    assert siv(key).open(nonce, [], sealed) == Some(Plaintext(c)) && |sealed| == |Plaintext(c)| + TAG_LENGTH;
    CookieLayout(WrappingAdd(ks.primary, ks.idOffset), nonce, sealed);
  }

  /** The nonce stands in the cookie. */
  lemma NonceInCookie(ks: KeySet, siv: Siv, c: Cookie, nonce: Bytes)
    requires ks.primary < |ks.keys| && |nonce| == NONCE_LENGTH
    ensures |EncodeCookie(ks, siv, c, nonce)| >= 22 && EncodeCookie(ks, siv, c, nonce)[6..22] == nonce
  {
    hide Plaintext, FromU32, FromU16, ToU32, ToU16, WrappingAdd;
    var sealed := siv(ks.keys[ks.primary]).seal(nonce, [], Plaintext(c));
    BehindSix(ToU32(WrappingAdd(ks.primary, ks.idOffset)), ToU16(|sealed| % 0x1_0000), nonce, sealed);
  }

  lemma BehindSix(id: Bytes, length: Bytes, nonce: Bytes, sealed: Bytes)
    requires |id| == 4 && |length| == 2
    ensures (id + length + (nonce + sealed))[6..6 + |nonce|] == nonce
  {
  }

  /** A key set decodes the cookies that it makes, to what they were made from. */
  lemma DecodeOwn(ks: KeySet, siv: Siv, c: Cookie, nonce: Bytes)
    requires ks.primary < |ks.keys| && ProperSiv(siv) && ProperCookie(c) && |nonce| == NONCE_LENGTH
    ensures DecodeCookie(ks, siv, EncodeCookie(ks, siv, c, nonce)) == Some(c)
  {
    hide DecodeCookie, EncodeCookie;
    DecodeWith(ks, ks, siv, c, nonce);
    WrappingBack(ks.primary, ks.idOffset);
  }

  lemma WrappingBack(a: U32, b: U32)
    ensures WrappingSub(WrappingAdd(a, b), b) == a
  {
  }

  lemma CookieLayout(id: U32, nonce: Bytes, sealed: Bytes)
    requires |nonce| == NONCE_LENGTH && |sealed| <= 0xFFFF
    ensures var b := ToU32(id) + ToU16(|sealed| % 0x1_0000) + (nonce + sealed);
            && FromU32(b[..4]) == id && FromU16(b[4], b[5]) == |sealed|
            && b[6..22] == nonce && 22 + |sealed| == |b| && b[22..22 + |sealed|] == sealed
  {
    hide ToU32, FromU32, ToU16, FromU16;
    var n := ToU16(|sealed| % 0x1_0000);
    var b := ToU32(id) + n + (nonce + sealed);
    assert b[..4] == ToU32(id);
    assert b[4] == n[0] && b[5] == n[1];
    assert b[6..22] == nonce;
    assert b[22..22 + |sealed|] == sealed;
  }

  /* ---- Rotation ---- */

  datatype Provider = Provider(current: KeySet, history: nat)

  function New(history: nat, key: Bytes): Provider {
    Provider(KeySet([key], 0, 0), history)
  }

  /** A new primary key; as many old ones as the history allows stay. */
  function Rotated(p: Provider, next: Bytes): (r: Provider)
    requires |p.current.keys| < WORD32
    ensures |r.current.keys| <= p.history + 1
  {
    var drop := SaturatingSub(|p.current.keys|, p.history);
    var keys := p.current.keys[drop..] + [next];
    p.(current := KeySet(keys, WrappingAdd(p.current.idOffset, drop), Low32(|keys| - 1)))
  }

  class KeySetProvider {
    var current: KeySet
    const history: nat

    constructor (history: nat, key: Bytes)
      ensures Provider(current, this.history) == New(history, key)
    {
      this.current, this.history := KeySet([key], 0, 0), history;
    }

    method Rotate(next: Bytes)
      requires |current.keys| < WORD32
      modifies this
      ensures Provider(current, history) == Rotated(old(Provider(current, history)), next)
    {
      var keys := [];
      var start := SaturatingSub(|current.keys|, history);
      for i := start to |current.keys|
        invariant current == old(current)
        invariant keys == current.keys[start..i]
      {
        keys := keys + [current.keys[i]];
      }
      keys := keys + [next];
      current := KeySet(keys, WrappingAdd(current.idOffset, start), Low32(|keys| - 1));
    }
  }

  /** The provider made with the first of `keys` and rotated through the others. */
  function RotatedThrough(history: nat, keys: seq<Bytes>): (p: Provider)
    requires keys != [] && history < WORD32 - 1
    ensures p.history == history && |p.current.keys| <= history + 1
  {
    if |keys| == 1 then New(history, keys[0])
    else Rotated(RotatedThrough(history, keys[..|keys| - 1]), keys[|keys| - 1])
  }

  /** How many keys are kept after a number of them have been primary. */
  function Kept(history: nat, total: nat): nat {
    Min(total, history + 1)
  }

  /** The last of all keys are kept, each under its own running number. */
  predicate HoldsLast(p: Provider, history: nat, keys: seq<Bytes>)
    requires keys != []
  {
    var kept := Kept(history, |keys|);
    && p.history == history && p.current.keys == keys[|keys| - kept..]
    && p.current.idOffset == Low32(|keys| - kept) && p.current.primary == kept - 1
  }

  /** That stays so with every rotation, however often the offset wraps. */
  lemma {:induction false} Holds(history: nat, keys: seq<Bytes>)
    requires keys != [] && history < WORD32 - 1
    ensures HoldsLast(RotatedThrough(history, keys), history, keys)
  {
    hide HoldsLast, Rotated, New;
    if |keys| == 1 {
      HoldsFirst(history, keys);
    } else {
      var init, last := keys[..|keys| - 1], keys[|keys| - 1];
      Holds(history, init);
      RotationHolds(RotatedThrough(history, init), history, init, last);
      assert init + [last] == keys;
    }
  }

  lemma HoldsFirst(history: nat, keys: seq<Bytes>)
    requires |keys| == 1
    ensures HoldsLast(New(history, keys[0]), history, keys)
  {
    assert keys[0..] == [keys[0]];
  }

  lemma RotationHolds(p: Provider, history: nat, keys: seq<Bytes>, next: Bytes)
    requires keys != [] && history < WORD32 - 1 && HoldsLast(p, history, keys)
    ensures HoldsLast(Rotated(p, next), history, keys + [next])
  {
    hide WrappingAdd, Low32, Kept, SaturatingSub;
    var n, kept := |keys|, Kept(history, |keys|);
    var drop := SaturatingSub(kept, history);
    KeptStep(history, n);
    OffsetStep(n - kept, drop);
    TailStep(keys, n - kept, drop, next);
  }

  lemma KeptStep(history: nat, n: nat)
    ensures var kept := Kept(history, n);
            var drop := SaturatingSub(kept, history);
            && drop <= kept <= n && drop <= 1 && Kept(history, n + 1) == kept - drop + 1 <= history + 1
  {
  }

  lemma OffsetStep(x: nat, drop: nat)
    requires drop < WORD32
    ensures WrappingAdd(Low32(x), drop) == Low32(x + drop)
  {
  }

  lemma TailStep(keys: seq<Bytes>, a: nat, drop: nat, next: Bytes)
    requires a + drop <= |keys|
    ensures keys[a..][drop..] + [next] == (keys + [next])[a + drop..]
  {
  }

  /**
   A cookie made when the keys were `keys[..n]` is decoded after any number of further rotations
   exactly when that number is within the history, and then to what it held when made.
   */
  lemma CookieLifetime(history: nat, keys: seq<Bytes>, n: nat, siv: Siv, c: Cookie, nonce: Bytes)
    requires history < WORD32 - 1 && 0 < n <= |keys| && |keys| - n < WORD32
    requires ProperSiv(siv) && ProperCookie(c) && |nonce| == NONCE_LENGTH
    ensures var made := RotatedThrough(history, keys[..n]).current;
            var now := RotatedThrough(history, keys).current;
            && made.primary < |made.keys|
            && DecodeCookie(now, siv, EncodeCookie(made, siv, c, nonce)) ==
               if |keys| - n <= history then Some(c) else None
  {
    hide DecodeCookie, EncodeCookie, RotatedThrough;
    Holds(history, keys[..n]);
    Holds(history, keys);
    var made, now := RotatedThrough(history, keys[..n]).current, RotatedThrough(history, keys).current;
    DecodeWith(made, now, siv, c, nonce);
    var k, kept := |keys| - n, Kept(history, |keys|);
    IdDistance(n, |keys|, history);
    if k <= history {
      assert now.keys[kept - 1 - k] == keys[n - 1];
      assert made.keys[made.primary] == keys[n - 1];
    }
  }

  /** The position of key number `n` among the keys held after `m` keys, across wrapping. */
  lemma IdDistance(n: nat, m: nat, history: nat)
    requires 0 < n <= m && m - n < WORD32 && history < WORD32 - 1
    ensures var a, b := Kept(history, n), Kept(history, m);
            var id := WrappingSub(WrappingAdd(a - 1, Low32(n - a)), Low32(m - b));
            if m - n <= history then id == b - 1 - (m - n) else id >= b
  {
    hide WrappingAdd, WrappingSub, Low32;
    var a, b := Kept(history, n), Kept(history, m);
    OffsetStep(n - a, a - 1);
    WrappingCommutes(a - 1, Low32(n - a));
    DifferenceStep(n - 1, m - b);
  }

  lemma WrappingCommutes(a: U32, b: U32)
    ensures WrappingAdd(a, b) == WrappingAdd(b, a)
  {
  }

  lemma DifferenceStep(x: nat, y: nat)
    requires -WORD32 < x - y < WORD32
    ensures WrappingSub(Low32(x), Low32(y)) == if x >= y then x - y else x - y + WORD32
  {
    var i, j := x / WORD32, y / WORD32;
    assert x == i * WORD32 + Low32(x) && y == j * WORD32 + Low32(y);
    assert i - j == 0 || i - j == 1 || i - j == -1;
  }
}
