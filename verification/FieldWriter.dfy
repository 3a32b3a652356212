/** Writing extension fields into a buffer of fixed size, encrypting in place. */
module FieldWriter {
  import opened Bytes
  import opened ExtensionFields
  import opened EncryptedFields

  class Cursor {
    const buffer: array<Byte>
    var pos: nat

    ghost predicate Valid()
      reads this
    {
      pos <= buffer.Length
    }

    ghost function Written(): Bytes
      requires Valid()
      reads this, buffer
    {
      buffer[..pos]
    }

    constructor (buffer: array<Byte>)
      ensures Valid() && this.buffer == buffer && pos == 0
    {
      this.buffer, this.pos := buffer, 0;
    }

    /** `copy_from_slice` at a given place. */
    method Put(at: nat, b: Bytes)
      requires at + |b| <= buffer.Length
      modifies buffer
      ensures buffer[..at] == old(buffer[..at])
      ensures buffer[at..at + |b|] == b
      ensures buffer[at + |b|..] == old(buffer[at + |b|..])
      ensures buffer[..at + |b|] == old(buffer[..at]) + b
    {
      for i := 0 to |b|
        invariant buffer[..at] == old(buffer[..at])
        invariant buffer[at..at + i] == b[..i]
        invariant buffer[at + i..] == old(buffer[at + i..])
      {
        buffer[at + i] := b[i];
        assert buffer[at..at + i + 1] == buffer[at..at + i] + [b[i]];
      }
      assert buffer[..at + |b|] == buffer[..at] + buffer[at..at + |b|];
    }

    /** Writes all of `b`, or as much as there is room for and fails. */
    method WriteAll(b: Bytes) returns (ok: bool)
      requires Valid()
      modifies this`pos, buffer
      ensures Valid()
      ensures ok <==> old(pos) + |b| <= buffer.Length
      ensures ok ==> Written() == old(Written()) + b
    {
      var n := Min(|b|, buffer.Length - pos);
      Put(pos, b[..n]);
      assert buffer[..pos + n] == buffer[..pos] + buffer[pos..pos + n];
      pos := pos + n;
      ok := n == |b|;
    }

    method WriteZeros(n: nat) returns (ok: bool)
      requires Valid()
      modifies this`pos, buffer
      ensures Valid()
      ensures ok <==> old(pos) + n <= buffer.Length
      ensures ok ==> Written() == old(Written()) + Zeros(n)
    {
      var remaining: nat := n;
      while remaining > 0
        invariant Valid() && remaining <= n
        invariant pos == old(pos) + (n - remaining)
        invariant Written() == old(Written()) + Zeros(n - remaining)
      {
        var added := Min(remaining, 32);
        ok := WriteAll(Zeros(added));
        if !ok {
          return;
        }
        ZerosAdd(n - remaining, added);
        remaining := remaining - added;
      }
      ok := true;
    }

    method EncodeFraming(typeId: U16, dataLength: nat, minimum: U16, ver: Version) returns (ok: bool)
      requires Valid()
      modifies this`pos, buffer
      ensures Valid()
      ensures ok <==> dataLength <= MAX_BODY && old(pos) + 4 <= buffer.Length
      ensures ok ==> Written() == old(Written()) + Framing(typeId, FramedLength(dataLength, minimum, ver))
    {
      if dataLength > MAX_BODY {
        return false;
      }
      var length: U16 := Max(dataLength + HEADER_LENGTH, minimum);
      if ver == V4 {
        length := RoundUp4U16(length);
      }
      ok := WriteAll(ToU16(typeId));
      if ok {
        ok := WriteAll(ToU16(length));
      }
    }

    method EncodePadding(dataLength: nat, minimum: U16) returns (ok: bool)
      requires Valid()
      modifies this`pos, buffer
      ensures Valid()
      ensures ok <==> dataLength <= MAX_BODY && old(pos) + PadLength(dataLength, minimum) <= buffer.Length
      ensures ok ==> Written() == old(Written()) + Zeros(PadLength(dataLength, minimum))
    {
      if dataLength > MAX_BODY {
        return false;
      }
      ok := WriteZeros(RoundUp4(Max(dataLength + HEADER_LENGTH, minimum)) - dataLength - HEADER_LENGTH);
    }

    /** Header, body and padding of one field, or failure for want of room. */
    method EncodeField(f: ExtField, minimum: U16, ver: Version) returns (ok: bool)
      requires Valid() && Writable(f)
      modifies this`pos, buffer
      ensures Valid()
      ensures ok <==> Encodable(f) && old(pos) + |Encode(f, minimum, ver)| <= buffer.Length
      ensures ok ==> Written() == old(Written()) + Encode(f, minimum, ver)
    {
      hide Framing, FramedLength, PadLength, Body, TypeId;
      if f.InvalidNtsEncryptedField? {
        return false;
      }
      var m := MinimumFor(f, minimum);
      ok := EncodeFraming(TypeId(f), Declared(f), m, FramedAs(f, ver));
      if !ok {
        return;
      }
      ok := WriteAll(Body(f));
      if !ok {
        return;
      }
      ok := EncodePadding(|Body(f)|, m);
      if ok {
        Joined(old(Written()), Framing(TypeId(f), FramedLength(Declared(f), m, FramedAs(f, ver))), Body(f),
               Zeros(PadLength(|Body(f)|, m)));
      }
    }

    method EncodeFields(fs: seq<Sized>, ver: Version) returns (ok: bool)
      requires Valid() && forall i :: 0 <= i < |fs| ==> Writable(fs[i].field)
      modifies this`pos, buffer
      ensures Valid()
      ensures ok <==> AllEncodable(fs) && old(pos) + |EncodeAll(fs, ver)| <= buffer.Length
      ensures ok ==> Written() == old(Written()) + EncodeAll(fs, ver)
    {
      hide Encode, Encodable, EncodeAll;
      EncodeAllParts(fs[..0], fs, 0, ver);
      for i := 0 to |fs|
        invariant Valid() && AllEncodable(fs[..i])
        invariant pos == old(pos) + |EncodeAll(fs[..i], ver)|
        invariant Written() == old(Written()) + EncodeAll(fs[..i], ver)
      {
        EncodeAllParts(fs[..i], fs, i, ver);
        ok := EncodeField(fs[i].field, fs[i].minimum, ver);
        if !ok {
          return;
        }
      }
      assert fs[..|fs|] == fs;
      ok := true;
    }

    /**
     The encrypted field: the plain fields are written behind a header that is filled in later,
     sealed in place under everything in front of the header, and moved apart for the padding.
     */
    method EncodeEncryptedField(fs: seq<ExtField>, cipher: Cipher, nonce: Bytes, ver: Version) returns (ok: bool)
      requires Valid() && Tagged(cipher)
      requires forall i :: 0 <= i < |fs| ==> Writable(fs[i])
      modifies this`pos, buffer
      ensures Valid()
      ensures ok <==> && AllEncodable(WithMinimum(fs, 0))
                      && old(pos) + |EncodeEncrypted(old(Written()), fs, cipher, nonce, ver)| <= buffer.Length
      ensures ok ==> Written() == old(Written()) + EncodeEncrypted(old(Written()), fs, cipher, nonce, ver)
    {
      hide EncodeAll, Encodable, SealedBody, EncodeSealed, AllEncodable;
      ghost var aad := Written();
      var headerStart := pos;
      if AllEncodable(WithMinimum(fs, 0)) {
        EncryptedLength(aad, fs, cipher, nonce, ver);
      }
      ok := WriteAll(ToU16(NTS_ENCRYPTED_FIELD) + Zeros(6));
      if !ok {
        return;
      }
      var plainStart := pos;
      ok := EncodeFields(WithMinimum(fs, 0), ver);
      if !ok {
        return;
      }
      ghost var plain := EncodeAll(WithMinimum(fs, 0), ver);
      assert buffer[..plainStart] == aad + (ToU16(NTS_ENCRYPTED_FIELD) + Zeros(6));
      assert buffer[plainStart..pos] == plain;
      assert buffer[..headerStart] == aad;
      var length;
      ok, length := SealInPlace(headerStart, plainStart, pos - plainStart, cipher, nonce);
      if ok {
        pos := headerStart + length;
      }
    }

    /** Seals the plain text at `start` and lays the field out from `headerStart` on. */
    method SealInPlace(headerStart: nat, start: nat, plainLength: nat, cipher: Cipher, nonce: Bytes)
      returns (ok: bool, length: nat)
      requires start == headerStart + 8 && start + plainLength <= buffer.Length && Tagged(cipher)
      modifies buffer
      ensures var sealed := cipher.seal(nonce, old(buffer[..headerStart]), old(buffer[start..start + plainLength]));
              && length == |EncodeSealed(nonce, sealed)|
              && (ok <==> headerStart + length <= buffer.Length)
              && (ok ==> buffer[..headerStart + length] == old(buffer[..headerStart]) + EncodeSealed(nonce, sealed))
    {
      hide Framing, ToU16, RoundUp4, PadTo4, SealedHeader, EncodeSealed, Tagged;
      var aad := buffer[..headerStart];
      ghost var front := buffer[..start];
      assert front[..headerStart] == aad;
      var sealed;
      ok, sealed := Encrypt(start, plainLength, cipher, nonce, aad);
      length := 8 + RoundUp4(|nonce|) + RoundUp4(|sealed|);
      LaidOut(aad, nonce, sealed);
      if !ok || headerStart + length > buffer.Length {
        return false, length;
      }
      LayOut(headerStart, nonce, sealed, front);
    }

    /** The cipher at work: the nonce and behind it the ciphertext replace the plain text. */
    method Encrypt(start: nat, plainLength: nat, cipher: Cipher, nonce: Bytes, aad: Bytes)
      returns (ok: bool, sealed: Bytes)
      requires start + plainLength <= buffer.Length
      modifies buffer
      ensures sealed == cipher.seal(nonce, aad, old(buffer[start..start + plainLength]))
      ensures ok <==> start + |nonce| + |sealed| <= buffer.Length
      ensures ok ==> && buffer[..start + |nonce|] == old(buffer[..start]) + nonce
                     && buffer[start + |nonce|..start + |nonce| + |sealed|] == sealed
    {
      sealed := cipher.seal(nonce, aad, buffer[start..start + plainLength]);
      ok := start + |nonce| + |sealed| <= buffer.Length;
      if ok {
        Put(start, nonce);
        Put(start + |nonce|, sealed);
      }
    }

    /** `copy_within` to a later place, of `moved`, which stands behind `front`. */
    method Move(from: nat, to: nat, ghost front: Bytes, moved: Bytes)
      requires from <= to && to + |moved| <= buffer.Length
      requires buffer[..from] == front && buffer[from..from + |moved|] == moved
      modifies buffer
      ensures buffer[..from] == front && buffer[to..to + |moved|] == moved
    {
      Put(to, buffer[from..from + |moved|]);
      assert buffer[..from] == buffer[..to][..from];
    }

    /** Zeros between `front` and what is to stay behind it. */
    method PadBetween(from: nat, to: nat, ghost front: Bytes, ghost stays: Bytes)
      requires from <= to && to + |stays| <= buffer.Length
      requires buffer[..from] == front && buffer[to..to + |stays|] == stays
      modifies buffer
      ensures buffer[..to + |stays|] == front + Zeros(to - from) + stays
    {
      Put(from, Zeros(to - from));
      assert buffer[to..to + |stays|] == buffer[to..][..|stays|];
      assert buffer[..to + |stays|] == buffer[..to] + buffer[to..to + |stays|];
    }

    method PutBehind(at: nat, b: Bytes, ghost front: Bytes, end: nat)
      requires end == at + |b| <= buffer.Length && buffer[..at] == front
      modifies buffer
      ensures buffer[..end] == front + b
    {
      Put(at, b);
    }

    method PutHeader(at: nat, header: Bytes, end: nat, ghost all: Bytes)
      requires at + |header| <= end <= buffer.Length && buffer[..end] == all
      modifies buffer
      ensures buffer[..end] == all[..at] + header + all[at + |header|..]
    {
      var k := at + |header|;
      assert all[..at] == buffer[..at];
      assert all[k..] == buffer[k..end];
      Put(at, header);
      assert buffer[k..end] == buffer[k..][..end - k];
      assert buffer[..end] == buffer[..k] + buffer[k..end];
    }

    /** Moves the ciphertext over for the padding of the nonce and pads both with zeros. */
    method SpreadOut(at: nat, sealed: Bytes, padNonce: nat, padSealed: nat, ghost front: Bytes)
      requires at + padNonce + |sealed| + padSealed <= buffer.Length
      requires buffer[..at] == front && buffer[at..at + |sealed|] == sealed
      modifies buffer
      ensures buffer[..at + padNonce + |sealed| + padSealed] == front + Zeros(padNonce) + sealed + Zeros(padSealed)
    {
      Move(at, at + padNonce, front, sealed);
      PadBetween(at, at + padNonce, front, sealed);
      ghost var all := front + Zeros(padNonce) + sealed;
      PutBehind(at + padNonce + |sealed|, Zeros(padSealed), all, at + padNonce + |sealed| + padSealed);
    }

    /** The field from `headerStart` on, once nonce and ciphertext stand behind the header. */
    method LayOut(headerStart: nat, nonce: Bytes, sealed: Bytes, ghost front: Bytes)
      requires headerStart + 8 + RoundUp4(|nonce|) + RoundUp4(|sealed|) <= buffer.Length && |front| == headerStart + 8
      requires buffer[..headerStart + 8 + |nonce|] == front + nonce
      requires buffer[headerStart + 8 + |nonce|..headerStart + 8 + |nonce| + |sealed|] == sealed
      modifies buffer
      ensures buffer[..headerStart + 8 + RoundUp4(|nonce|) + RoundUp4(|sealed|)] ==
              front[..headerStart] + SealedHeader(nonce, sealed) + PadTo4(nonce) + PadTo4(sealed)
    {
      hide RoundUp4, SealedHeader, PadTo4;
      var start, n, c := headerStart + 8, |nonce|, |sealed|;
      SpreadOut(start + n, sealed, RoundUp4(n) - n, RoundUp4(c) - c, front + nonce);
      SpreadEquation(front, nonce, sealed);
      ghost var all := front + PadTo4(nonce) + PadTo4(sealed);
      LayoutEquation(front, headerStart, SealedHeader(nonce, sealed), PadTo4(nonce), PadTo4(sealed));
      PutHeader(headerStart, SealedHeader(nonce, sealed), start + RoundUp4(n) + RoundUp4(c), all);
    }

    /** All extension fields of a packet behind what has been written so far. */
    method Serialize(d: EfData, provider: seq<ExtField> -> Option<Cipher>, nonce: Bytes, ver: Version)
      returns (ok: bool)
      requires Valid() && forall fs :: provider(fs).Some? ==> Tagged(provider(fs).value)
      requires forall f :: f in d.authenticated || f in d.encrypted || f in d.untrusted ==> Writable(f)
      modifies this`pos, buffer
      ensures Valid()
      ensures ok <==> && EfEncodable(d, ver)
                      && (NeedsCipher(d) ==> provider(d.authenticated).Some?)
                      && |Packed(old(Written()), d, provider, nonce, ver)| <= buffer.Length
      ensures ok ==> Written() == Packed(old(Written()), d, provider, nonce, ver)
    {
      hide EncodeAll, Encodable, EncodeEncrypted, Tagged;
      if NeedsCipher(d) {
        match provider(d.authenticated) {
          case None => return false;
          case Some(cipher) =>
            ok := EncodeFields(WithMinimum(d.authenticated, AUTHENTICATED_MINIMUM), ver);
            if !ok {
              return;
            }
            ok := EncodeEncryptedField(d.encrypted, cipher, nonce, ver);
            if !ok {
              return;
            }
        }
      } else {
        assert WithMinimum(d.authenticated, AUTHENTICATED_MINIMUM) == [] == WithMinimum(d.encrypted, 0);
      }
      ok := EncodeFields(UntrustedSizes(d.untrusted, ver), ver);
    }
  }

  /** The packet with its extension fields, under the cipher that the provider chooses. */
  function Packed(header: Bytes, d: EfData, provider: seq<ExtField> -> Option<Cipher>, nonce: Bytes, ver: Version)
    : Bytes
    requires EfEncodable(d, ver) && (NeedsCipher(d) ==> provider(d.authenticated).Some?)
  {
    if NeedsCipher(d) then Serialized(header, d, provider(d.authenticated).value, nonce, ver)
    else header + EncodeAll(UntrustedSizes(d.untrusted, ver), ver)
  }

  lemma Joined(a: Bytes, b: Bytes, c: Bytes, d: Bytes)
    ensures a + b + c + d == a + (b + c + d)
  {
  }

  lemma SpreadEquation(front: Bytes, nonce: Bytes, sealed: Bytes)
    ensures front + nonce + Zeros(RoundUp4(|nonce|) - |nonce|) + sealed + Zeros(RoundUp4(|sealed|) - |sealed|) ==
            front + PadTo4(nonce) + PadTo4(sealed)
  {
    hide RoundUp4;
  }

  lemma LayoutEquation(front: Bytes, at: nat, header: Bytes, n: Bytes, c: Bytes)
    requires at + |header| == |front|
    ensures var all := front + n + c;
            all[..at] + header + all[at + |header|..] == front[..at] + header + n + c
  {
    var all := front + n + c;
    assert all == front + (n + c);
    assert all[..at] == front[..at];
    assert all[|front|..] == n + c;
  }

  /** Type, total length and the lengths of nonce and ciphertext. */
  function SealedHeader(nonce: Bytes, sealed: Bytes): (r: Bytes)
    ensures |r| == 8
  {
    var length := 8 + RoundUp4(|nonce|) + RoundUp4(|sealed|);
    Framing(NTS_ENCRYPTED_FIELD, length % 0x1_0000) + ToU16(|nonce| % 0x1_0000) + ToU16(|sealed| % 0x1_0000)
  }

  lemma LaidOut(aad: Bytes, nonce: Bytes, sealed: Bytes)
    ensures aad + SealedHeader(nonce, sealed) + PadTo4(nonce) + PadTo4(sealed) == aad + EncodeSealed(nonce, sealed)
    ensures |EncodeSealed(nonce, sealed)| == 8 + RoundUp4(|nonce|) + RoundUp4(|sealed|)
  {
    hide Framing, ToU16, RoundUp4, PadTo4;
    assert SealedHeader(nonce, sealed) + PadTo4(nonce) + PadTo4(sealed) == EncodeSealed(nonce, sealed);
  }

  lemma EncryptedLength(aad: Bytes, fs: seq<ExtField>, cipher: Cipher, nonce: Bytes, ver: Version)
    requires AllEncodable(WithMinimum(fs, 0)) && Tagged(cipher)
    ensures |EncodeEncrypted(aad, fs, cipher, nonce, ver)| >= 8 + |EncodeAll(WithMinimum(fs, 0), ver)|
  {
  }

  /** The bytes of the first fields, of one more, and of all. */
  lemma EncodeAllParts(done: seq<Sized>, fs: seq<Sized>, i: nat, ver: Version)
    requires i <= |fs| && done == fs[..i] && AllEncodable(done)
    ensures i == 0 ==> EncodeAll(done, ver) == []
    ensures i < |fs| && Encodable(fs[i].field) ==>
              && AllEncodable(fs[..i + 1])
              && EncodeAll(fs[..i + 1], ver) ==
                 EncodeAll(done, ver) + Encode(fs[i].field, fs[i].minimum, ver)
    ensures i < |fs| && AllEncodable(fs) ==> |EncodeAll(fs[..i + 1], ver)| <= |EncodeAll(fs, ver)|
  {
    hide Encode, Encodable;
    if i < |fs| && Encodable(fs[i].field) {
      EncodeAllAppend(done, fs[i], ver);
      assert fs[..i + 1] == done + [fs[i]];
    }
    if i < |fs| && AllEncodable(fs) {
      EncodeAllSplit(fs, i + 1, ver);
    }
  }

  lemma {:induction false} EncodeAllAppend(fs: seq<Sized>, f: Sized, ver: Version)
    requires AllEncodable(fs) && Encodable(f.field)
    ensures AllEncodable(fs + [f])
    ensures EncodeAll(fs + [f], ver) == EncodeAll(fs, ver) + Encode(f.field, f.minimum, ver)
  {
    hide Encode, Encodable;
    if fs != [] {
      EncodeAllAppend(fs[1..], f, ver);
      assert fs + [f] == [fs[0]] + (fs[1..] + [f]);
      assert (fs + [f])[1..] == fs[1..] + [f];
    }
  }

  lemma {:induction false} EncodeAllSplit(fs: seq<Sized>, n: nat, ver: Version)
    requires AllEncodable(fs) && n <= |fs|
    ensures EncodeAll(fs, ver) == EncodeAll(fs[..n], ver) + EncodeAll(fs[n..], ver)
  {
    hide Encode, Encodable, EncodeAll;
    if n == 0 {
      NoneEncoded(fs[..0], ver);
      assert fs[0..] == fs;
    } else {
      EncodeAllSplit(fs[1..], n - 1, ver);
      EncodeAllFirst(fs, ver);
      EncodeAllFirst(fs[..n], ver);
      assert fs[..n][1..] == fs[1..][..n - 1] && fs[1..][n - 1..] == fs[n..];
    }
  }

  lemma NoneEncoded(fs: seq<Sized>, ver: Version)
    requires fs == []
    ensures AllEncodable(fs) && EncodeAll(fs, ver) == []
  {
  }

  lemma EncodeAllFirst(fs: seq<Sized>, ver: Version)
    requires AllEncodable(fs) && fs != []
    ensures EncodeAll(fs, ver) == Encode(fs[0].field, fs[0].minimum, ver) + EncodeAll(fs[1..], ver)
  {
    hide Encode, Encodable;
  }
}
