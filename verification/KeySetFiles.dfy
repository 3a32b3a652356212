/** A key set on disk, so that cookies stay good when the server is restarted. */
module KeySetFiles {
  import opened Bytes
  import E = EncryptedFields
  import opened KeySets

  const KEY_LENGTH := 64
  const PREAMBLE := 20

  /* ---- Writing ---- */

  function WriteKeys(keys: seq<Bytes>): Bytes {
    if keys == [] then [] else WriteKeys(keys[..|keys| - 1]) + keys[|keys| - 1]
  }

  function Preamble(ks: KeySet, time: U64): (b: Bytes)
    ensures |b| == PREAMBLE
  {
    ToU64(time) + ToU32(ks.idOffset) + ToU32(ks.primary) + ToU32(Low32(|ks.keys|))
  }

  function Stored(ks: KeySet, time: U64): Bytes {
    Preamble(ks, time) + WriteKeys(ks.keys)
  }

  method Store(ks: KeySet, time: U64) returns (output: Bytes)
    ensures output == Stored(ks, time)
  {
    hide ToU64, ToU32, Low32;
    output := ToU64(time);
    output := output + ToU32(ks.idOffset);
    output := output + ToU32(ks.primary);
    output := output + ToU32(Low32(|ks.keys|));
    ghost var start := output;
    for i := 0 to |ks.keys|
      invariant output == start + WriteKeys(ks.keys[..i])
    {
      assert ks.keys[..i + 1][..i] == ks.keys[..i];
      output := output + ks.keys[i];
    }
    assert ks.keys[..|ks.keys|] == ks.keys;
  }

  /* ---- Reading ---- */

  /** The first `n` keys; none when the input is too short. */
  function ReadKeys(input: Bytes, n: nat): (keys: Option<seq<Bytes>>)
    ensures keys.Some? <==> KEY_LENGTH * n <= |input|
    ensures keys.Some? ==> |keys.value| == n && forall i :: 0 <= i < n ==> |keys.value[i]| == KEY_LENGTH
  {
    if n == 0 then Some([])
    else
      match ReadKeys(input, n - 1)
      case None => None
      case Some(keys) =>
        if KEY_LENGTH * n <= |input| then Some(keys + [input[KEY_LENGTH * (n - 1)..KEY_LENGTH * n]]) else None
  }

  datatype Contents = Contents(keyset: KeySet, time: U64)

  function Loaded(input: Bytes): (r: Option<Contents>) {
    if |input| < PREAMBLE then None
    else
      var primary, length := FromU32(input[12..16]), FromU32(input[16..20]);
      if primary > length then None
      else
        match ReadKeys(input[PREAMBLE..], length)
        case None => None
        case Some(keys) => Some(Contents(KeySet(keys, FromU32(input[8..12]), primary), FromU64(input[..8])))
  }

  method Load(input: Bytes) returns (r: Option<Contents>)
    ensures r == Loaded(input)
  {
    if |input| < PREAMBLE {
      return None;
    }
    var time, idOffset := FromU64(input[..8]), FromU32(input[8..12]);
    var primary, length := FromU32(input[12..16]), FromU32(input[16..20]);
    if primary > length {
      return None;
    }
    var keys: seq<Bytes> := [];
    var rest := input[PREAMBLE..];
    for i := 0 to length
      invariant ReadKeys(input[PREAMBLE..], i) == Some(keys)
      invariant rest == input[PREAMBLE..][KEY_LENGTH * i..]
    {
      if |rest| < KEY_LENGTH {
        return None;
      }
      assert input[PREAMBLE..][KEY_LENGTH * i..KEY_LENGTH * (i + 1)] == rest[..KEY_LENGTH];
      keys := keys + [rest[..KEY_LENGTH]];
      assert rest[KEY_LENGTH..] == input[PREAMBLE..][KEY_LENGTH * (i + 1)..];
      rest := rest[KEY_LENGTH..];
    }
    return Some(Contents(KeySet(keys, idOffset, primary), time));
  }

  /* ---- There and back ---- */

  predicate ProperKeys(keys: seq<Bytes>) {
    |keys| < WORD32 && forall i :: 0 <= i < |keys| ==> |keys[i]| == KEY_LENGTH
  }

  lemma {:induction false} KeysReadBack(keys: seq<Bytes>, n: nat, rest: Bytes)
    requires (forall i :: 0 <= i < |keys| ==> |keys[i]| == KEY_LENGTH) && n <= |keys|
    ensures |WriteKeys(keys)| == KEY_LENGTH * |keys|
    ensures ReadKeys(WriteKeys(keys) + rest, n) == Some(keys[..n])
    decreases |keys|, n
  {
    if keys != [] {
      var init, last := keys[..|keys| - 1], keys[|keys| - 1];
      KeysReadBack(init, if n < |keys| then n else n - 1, last + rest);
      assert WriteKeys(keys) + rest == WriteKeys(init) + (last + rest);
      if n == |keys| {
        assert (WriteKeys(keys) + rest)[KEY_LENGTH * (n - 1)..KEY_LENGTH * n] == last;
        assert keys[..n] == init[..n - 1] + [last];
      } else {
        assert keys[..n] == init[..n];
      }
    }
  }

  lemma PreambleReadBack(ks: KeySet, time: U64, rest: Bytes)
    ensures var b := Preamble(ks, time) + rest;
            && FromU64(b[..8]) == time && FromU32(b[8..12]) == ks.idOffset
            && FromU32(b[12..16]) == ks.primary && FromU32(b[16..20]) == Low32(|ks.keys|)
            && b[PREAMBLE..] == rest
  {
    hide ToU32, FromU32, ToU64, FromU64, Low32;
    U64ReadBack(time);
    var b := Preamble(ks, time) + rest;
    assert b[..8] == ToU64(time) && b[8..12] == ToU32(ks.idOffset);
    assert b[12..16] == ToU32(ks.primary) && b[16..20] == ToU32(Low32(|ks.keys|));
  }

  /** What is stored is loaded, whatever follows in the file. */
  lemma StoreLoad(ks: KeySet, time: U64, rest: Bytes)
    requires ProperKeys(ks.keys) && ks.primary <= |ks.keys|
    ensures Loaded(Stored(ks, time) + rest) == Some(Contents(ks, time))
  {
    hide Preamble, WriteKeys, ReadKeys, FromU32, FromU64;
    var keys := WriteKeys(ks.keys);
    assert Stored(ks, time) + rest == Preamble(ks, time) + (keys + rest);
    PreambleReadBack(ks, time, keys + rest);
    KeysReadBack(ks.keys, |ks.keys|, rest);
    assert ks.keys[..|ks.keys|] == ks.keys;
  }

  /**
   The guard on loading also lets a primary key through that is one past the last. So a loaded key set can
   be used for new cookies exactly when the two numbers in the file differ.
   */
  lemma LoadedUsableIff(input: Bytes)
    requires Loaded(input).Some?
    ensures var ks := Loaded(input).value.keyset;
            ks.primary < |ks.keys| <==> FromU32(input[12..16]) != FromU32(input[16..20])
  {
    hide ReadKeys, FromU32;
  }

  lemma LoadedUnusable()
    ensures Loaded(Zeros(20)) == Some(Contents(KeySet([], 0, 0), 0))
  {
    hide Zeros;
    var z := Zeros(20);
    assert z[..8][..4] == [0, 0, 0, 0] && z[..8][4..] == [0, 0, 0, 0];
    assert z[8..12] == [0, 0, 0, 0] && z[12..16] == [0, 0, 0, 0] && z[16..20] == [0, 0, 0, 0];
  }

  /** A provider rotated through further keys. */
  function RotatedFrom(p: Provider, keys: seq<Bytes>): (r: Provider)
    requires |p.current.keys| < WORD32 && p.history < WORD32 - 1
    ensures r.history == p.history && |r.current.keys| < WORD32
    decreases |keys|
  {
    if keys == [] then p else Rotated(RotatedFrom(p, keys[..|keys| - 1]), keys[|keys| - 1])
  }

  lemma {:induction false} RotationsJoin(history: nat, a: seq<Bytes>, b: seq<Bytes>)
    requires a != [] && history < WORD32 - 1
    ensures RotatedFrom(RotatedThrough(history, a), b) == RotatedThrough(history, a + b)
    decreases |b|
  {
    hide Rotated;
    if b == [] {
      assert a + b == a;
    } else {
      RotationsJoin(history, a, b[..|b| - 1]);
      assert (a + b)[..|a + b| - 1] == a + b[..|b| - 1];
    }
  }

  /**
   A restart changes nothing in the life of a cookie: made when the keys were `keys[..n]`, with the key set
   stored and loaded when they were `keys[..m]`, it is decoded after the rotations that follow exactly when
   those since it was made are within the history.
   */
  lemma CookieSurvivesRestart(history: nat, keys: seq<Bytes>, n: nat, m: nat, time: U64,
                              siv: Siv, c: Cookie, nonce: Bytes)
    requires history < WORD32 - 1 && 0 < n <= m <= |keys| && |keys| - n < WORD32
    requires forall i :: 0 <= i < |keys| ==> |keys[i]| == KEY_LENGTH
    requires ProperSiv(siv) && ProperCookie(c) && |nonce| == E.NONCE_LENGTH
    ensures var made, kept := RotatedThrough(history, keys[..n]).current, RotatedThrough(history, keys[..m]).current;
            && made.primary < |made.keys|
            && Loaded(Stored(kept, time)).Some?
            && var loaded := Provider(Loaded(Stored(kept, time)).value.keyset, history);
            && |loaded.current.keys| < WORD32
            && DecodeCookie(RotatedFrom(loaded, keys[m..]).current, siv, EncodeCookie(made, siv, c, nonce)) ==
               if |keys| - n <= history then Some(c) else None
  {
    hide DecodeCookie, EncodeCookie, Loaded, Stored, RotatedThrough, RotatedFrom;
    var kept := RotatedThrough(history, keys[..m]).current;
    RestartKeeps(history, keys[..m], time);
    RotationsJoin(history, keys[..m], keys[m..]);
    assert keys[..m] + keys[m..] == keys;
    CookieLifetime(history, keys, n, siv, c, nonce);
  }

  lemma RestartKeeps(history: nat, keys: seq<Bytes>, time: U64)
    requires keys != [] && history < WORD32 - 1 && forall i :: 0 <= i < |keys| ==> |keys[i]| == KEY_LENGTH
    ensures var p := RotatedThrough(history, keys); Loaded(Stored(p.current, time)) == Some(Contents(p.current, time))
  {
    hide Loaded, Stored, RotatedThrough;
    Holds(history, keys);
    var ks := RotatedThrough(history, keys).current;
    StoreLoad(ks, time, []);
    assert Stored(ks, time) + [] == Stored(ks, time);
  }
}
