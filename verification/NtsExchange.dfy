/** One NTS poll and its answer: the size of what is sent, and the stock of cookies afterwards. */
module NtsExchange {
  import opened PowersOfTwo
  import opened Bytes
  import opened Protocol
  import opened ExtensionFields
  import opened EncryptedFields
  import opened FieldWriter
  import opened CookieStashes
  import opened Associations
  import opened Responses

  /** What a poll draws from outside: a 32-byte identifier and a chunk of the Bloom filter. */
  predicate ProperPoll(poll: Poll) {
    |poll.uid| == 32 && poll.bloomOffset + BLOOM_CHUNK <= 512
  }

  function CookieFieldSize(cookieLength: nat): nat {
    RoundUp4(Max(cookieLength + 4, AUTHENTICATED_MINIMUM))
  }

  function Placeholders(n: nat, cookieLength: U16): (r: seq<ExtField>) {
    seq(n, _ => NtsCookiePlaceholder(cookieLength))
  }

  /** A cookie, or a placeholder for one, of `c` bytes. */
  predicate Fillable(f: ExtField, c: nat) {
    match f
    case NtsCookiePlaceholder(n) => n == c
    case NtsCookie(data) => |data| == c
    case _ => false
  }

  lemma CookieSize(f: ExtField, c: U16, ver: Version)
    requires c <= MAX_BODY && Fillable(f, c)
    ensures Encodable(f) && |Encode(f, AUTHENTICATED_MINIMUM, ver)| == CookieFieldSize(c)
  {
    hide Framing, FramedLength;
  }

  lemma {:induction false} PlaceholdersSize(n: nat, c: U16, ver: Version)
    requires c <= MAX_BODY
    ensures AllEncodable(WithMinimum(Placeholders(n, c), AUTHENTICATED_MINIMUM))
    ensures |EncodeAll(WithMinimum(Placeholders(n, c), AUTHENTICATED_MINIMUM), ver)| == n * CookieFieldSize(c)
  {
    hide Encode, Encodable, CookieFieldSize;
    var fs := WithMinimum(Placeholders(n, c), AUTHENTICATED_MINIMUM);
    if n > 0 {
      PlaceholdersSize(n - 1, c, ver);
      assert fs[1..] == WithMinimum(Placeholders(n - 1, c), AUTHENTICATED_MINIMUM);
      assert fs[0] == Sized(NtsCookiePlaceholder(c), AUTHENTICATED_MINIMUM);
      CookieSize(NtsCookiePlaceholder(c), c, ver);
      assert forall i :: 0 <= i < n ==> fs[i] == fs[0];
      MulDistributes(n, 1, CookieFieldSize(c));
    }
  }

  /** The fields in front of and behind the placeholders. */
  function Lead(uid: Bytes, cookie: Bytes): seq<ExtField> {
    [UniqueIdentifier(uid), NtsCookie(cookie)]
  }

  function Trail(poll: Poll, ver: Version): seq<ExtField> {
    if ver == V4 then []
    else [DraftIdentification(DRAFT_VERSION), ReferenceIdRequest(BLOOM_CHUNK, poll.bloomOffset)]
  }

  lemma LeadSize(poll: Poll, cookie: Bytes, ver: Version)
    requires ProperPoll(poll) && |cookie| <= MAX_BODY
    ensures var lead := WithMinimum(Lead(poll.uid, cookie), AUTHENTICATED_MINIMUM);
            AllEncodable(lead) && |EncodeAll(lead, ver)| == 36 + CookieFieldSize(|cookie|)
    ensures var trail := WithMinimum(Trail(poll, ver), AUTHENTICATED_MINIMUM);
            AllEncodable(trail) && |EncodeAll(trail, ver)| == if ver == V4 then 0 else 48
  {
    hide Encode, EncodeAll, CookieFieldSize, Encodable;
    var lead := WithMinimum(Lead(poll.uid, cookie), AUTHENTICATED_MINIMUM);
    CookieSize(NtsCookie(cookie), |cookie|, ver);
    IdentifierSize(poll.uid, ver);
    EncodeTwo(lead, ver);
    var trail := WithMinimum(Trail(poll, ver), AUTHENTICATED_MINIMUM);
    if ver == V5 {
      DraftSizes(poll.bloomOffset);
      EncodeTwo(trail, ver);
    } else {
      NoneEncoded(trail, ver);
    }
  }

  lemma IdentifierSize(uid: Bytes, ver: Version)
    requires |uid| == 32
    ensures Encodable(UniqueIdentifier(uid)) && |Encode(UniqueIdentifier(uid), AUTHENTICATED_MINIMUM, ver)| == 36
  {
    hide Encode;
  }

  lemma DraftSizes(offset: nat)
    requires offset + BLOOM_CHUNK <= 512
    ensures var f := DraftIdentification(DRAFT_VERSION);
            Encodable(f) && |Encode(f, AUTHENTICATED_MINIMUM, V5)| == 28
    ensures var f := ReferenceIdRequest(BLOOM_CHUNK, offset);
            Encodable(f) && |Encode(f, AUTHENTICATED_MINIMUM, V5)| == 20
  {
    hide Encode;
  }

  lemma EncodeTwo(fs: seq<Sized>, ver: Version)
    requires |fs| == 2 && AllEncodable(fs)
    ensures EncodeAll(fs, ver) ==
            Encode(fs[0].field, fs[0].minimum, ver) + Encode(fs[1].field, fs[1].minimum, ver)
  {
    hide Encode, Encodable;
    NoneEncoded(fs[1..][1..], ver);
  }

  /** With at most eight cookies that fit the space kept for them, the cookie fields are small. */
  lemma CookieFieldsBound(stock: nat, c: nat)
    requires stock <= MAX_COOKIES && NewCookies(stock, c) >= 1
    ensures NewCookies(stock, c) * CookieFieldSize(c) <= 780
  {
    var n := NewCookies(stock, c);
    var q := (BUFFER_SIZE - 300) / Max(c, 1);
    assert n <= q && n <= 8;
    if c <= 12 {
      assert CookieFieldSize(c) == 16;
    } else {
      assert q * c <= BUFFER_SIZE - 300;
      SumBound(n, q, c, CookieFieldSize(c));
    }
  }

  lemma SumBound(n: nat, q: nat, c: nat, size: nat)
    requires n <= q && n <= 8 && q * c <= 724 && size <= c + 7
    ensures n * size <= 780
  {
    MulMonotone(n, q, c);
    MulMonotone(size, c + 7, n);
    assert n * (c + 7) == n * c + 7 * n;
  }

  /** The encrypted field without any fields inside. */
  lemma EmptySealSize(aad: Bytes, cipher: Cipher, nonce: Bytes, ver: Version)
    requires Tagged(cipher) && |nonce| == NONCE_LENGTH
    ensures AllEncodable(WithMinimum([], 0)) && |EncodeEncrypted(aad, [], cipher, nonce, ver)| == 40
  {
    assert |cipher.seal(nonce, aad, [])| == TAG_LENGTH;
    assert EncodeAll(WithMinimum([], 0), ver) == [];
  }

  lemma NtsPollSize(header: Bytes, cookie: Bytes, stock: nat, poll: Poll, cipher: Cipher, nonce: Bytes, ver: Version)
    requires |header| == HEADER && ProperPoll(poll) && Tagged(cipher) && |nonce| == NONCE_LENGTH
    requires stock <= MAX_COOKIES && NewCookies(stock, |cookie|) >= 1
    ensures var fields := NtsPollFields(cookie, NewCookies(stock, |cookie|), poll, ver);
            && EfEncodable(fields, ver) && NeedsCipher(fields)
            && |Serialized(header, fields, cipher, nonce, ver)| <= if ver == V4 then 904 else 952
  {
    hide Encodable, EncodeAll, EncodeEncrypted, CookieFieldSize, NewCookies, WithMinimum, Opens, Tagged;
    var n := NewCookies(stock, |cookie|);
    var fields := NtsPollFields(cookie, n, poll, ver);
    var lead, mid, trail := Lead(poll.uid, cookie), Placeholders(n - 1, |cookie|), Trail(poll, ver);
    LeadSize(poll, cookie, ver);
    PlaceholdersSize(n - 1, |cookie|, ver);
    CookieFieldsBound(stock, |cookie|);
    MulDistributes(n, 1, CookieFieldSize(|cookie|));
    PollParts(cookie, n, poll, ver);
    hide NtsPollFields, Lead, Placeholders, Trail, AllEncodable;
    ConcatSizes(lead, mid, AUTHENTICATED_MINIMUM, ver);
    ConcatSizes(lead + mid, trail, AUTHENTICATED_MINIMUM, ver);
    EmptySealSize(AssociatedData(header, fields, ver), cipher, nonce, ver) by {
      assert EfEncodable(fields, ver);
    }
    NoUntrusted(ver);
  }

  lemma PollParts(cookie: Bytes, n: nat, poll: Poll, ver: Version)
    requires |cookie| <= 0xFFFF && n >= 1
    ensures NtsPollFields(cookie, n, poll, ver) ==
            EfData((Lead(poll.uid, cookie) + Placeholders(n - 1, |cookie|)) + Trail(poll, ver), [], [])
    ensures NeedsCipher(NtsPollFields(cookie, n, poll, ver))
  {
    assert NtsFields(poll.uid, cookie, n) == Lead(poll.uid, cookie) + Placeholders(n - 1, |cookie|);
    assert NtsFields(poll.uid, cookie, n) + [] == NtsFields(poll.uid, cookie, n);
  }

  lemma NoUntrusted(ver: Version)
    ensures AllEncodable(UntrustedSizes([], ver)) && EncodeAll(UntrustedSizes([], ver), ver) == []
    ensures AllEncodable(WithMinimum([], 0))
  {
  }

  lemma ConcatSizes(a: seq<ExtField>, b: seq<ExtField>, minimum: U16, ver: Version)
    requires AllEncodable(WithMinimum(a, minimum)) && AllEncodable(WithMinimum(b, minimum))
    ensures AllEncodable(WithMinimum(a + b, minimum))
    ensures |EncodeAll(WithMinimum(a + b, minimum), ver)| ==
            |EncodeAll(WithMinimum(a, minimum), ver)| + |EncodeAll(WithMinimum(b, minimum), ver)|
  {
    hide Encodable, EncodeAll;
    var fs := WithMinimum(a + b, minimum);
    assert fs == WithMinimum(a, minimum) + WithMinimum(b, minimum);
    EncodeAllSplit(fs, |a|, ver);
    assert fs[..|a|] == WithMinimum(a, minimum) && fs[|a|..] == WithMinimum(b, minimum);
  }

  /** Whatever cookies an association holds, every NTS poll that it sends fits its buffer. */
  lemma SentPollFits(s: Source, poll: Poll, header: Bytes, cipher: Cipher, nonce: Bytes)
    requires Stocked(s) && s.cookies.Some? && ProperPoll(poll)
    requires |header| == HEADER && Tagged(cipher) && |nonce| == NONCE_LENGTH
    requires TimerStep(s, poll).1.Sent?
    ensures var o := TimerStep(s, poll).1;
            && EfEncodable(o.fields, o.ver)
            && |Serialized(header, o.fields, cipher, nonce, o.ver)| <= (if o.ver == V4 then 904 else 952) <= BUFFER_SIZE
  {
    hide Serialized, NtsPollFields, NewCookies;
    var stock := s.cookies.value;
    NtsPollSize(header, stock[0], |stock| - 1, poll, cipher, nonce, TimerStep(s, poll).1.ver);
  }

  /* ---- The answer ---- */

  /** Where cookies are asked for, anywhere in the request. */
  function Asked(fs: seq<ExtField>): set<nat> {
    set i: nat | i < |fs| && Asks(fs[i])
  }

  predicate AllCookieFields(fs: seq<ExtField>) {
    forall i :: 0 <= i < |fs| ==> fs[i].NtsCookie?
  }

  lemma GivenAtMost(fs: seq<ExtField>, c: nat)
    ensures |Given(fs, c)| <= MAX_COOKIES
  {
    assert Given(fs, c) <= Between(0, MAX_COOKIES);
    SubsetSize(Given(fs, c), Between(0, MAX_COOKIES));
  }

  lemma SubsetSize<T>(a: set<T>, b: set<T>)
    requires a <= b
    ensures |a| <= |b|
  {
    assert b == a + (b - a);
  }

  lemma {:induction false} AllCookies(fs: seq<ExtField>)
    requires forall i :: 0 <= i < |fs| ==> fs[i].NtsCookie?
    ensures |ResponseCookies(fs)| == |fs|
    ensures forall i :: 0 <= i < |fs| ==> ResponseCookies(fs)[i] == fs[i].data
  {
    if fs != [] {
      AllCookies(fs[1..]);
    }
  }

  lemma SubsetOfSameSize<T>(a: set<T>, b: set<T>)
    requires a <= b
    ensures |a| == |b| <==> a == b
  {
    assert b == a + (b - a);
  }

  /**
   On any request: a cookie is returned for each of the first eight fields that asks for one with room for
   it. So all that are asked for come back exactly when every field that asks is among the first eight and
   has the room.
   */
  lemma CookiesReturned(request: EfData, mint: nat -> Bytes, c: nat)
    requires FreshOfLength(mint, c)
    ensures var fs := Looked(request);
            var returned := |ResponseCookies(IssuedCookies(request, mint))|;
            && returned == |Given(fs, c)|
            && (returned == |Asked(fs)| <==> forall i :: i in Asked(fs) ==> i < MAX_COOKIES && HasRoom(fs[i], c))
  {
    hide Issue, ResponseCookies;
    var fs := Looked(request);
    var seen := fs[..Min(|fs|, MAX_COOKIES)];
    IssueCounts(seen, mint, c);
    AllCookies(Issue(seen, mint));
    assert Given(seen, c) == Given(fs, c);
    SubsetOfSameSize(Given(fs, c), Asked(fs));
  }

  function Between(a: nat, b: nat): (r: set<nat>)
    requires a <= b
    ensures |r| == b - a && forall i :: i in r <==> a <= i < b
  {
    if a == b then {} else Between(a, b - 1) + {b - 1}
  }

  /** Cookies and placeholders of the right size in one block, with other fields around them. */
  lemma BlockReturned(front: seq<ExtField>, block: seq<ExtField>, back: seq<ExtField>, mint: nat -> Bytes, c: nat)
    requires FreshOfLength(mint, c) && |front| <= MAX_COOKIES
    requires forall i :: 0 <= i < |front| ==> !Asks(front[i])
    requires forall i :: 0 <= i < |block| ==> Fillable(block[i], c)
    requires forall i :: 0 <= i < |back| ==> !Asks(back[i])
    ensures var request := EfData(front + block + back, [], []);
            && |Asked(Looked(request))| == |block|
            && |ResponseCookies(IssuedCookies(request, mint))| == Min(|block|, MAX_COOKIES - |front|)
  {
    hide IssuedCookies, ResponseCookies, Between;
    var request := EfData(front + block + back, [], []);
    var fs, n := Looked(request), |front| + |block|;
    CookiesReturned(request, mint, c);
    assert fs == front + block + back;
    forall i: nat
      ensures i < |fs| && Asks(fs[i]) <==> |front| <= i < n
      ensures i < |fs| && HasRoom(fs[i], c) <==> |front| <= i < n
    {
      if |front| <= i < n {
        assert fs[i] == block[i - |front|];
      } else if n <= i < |fs| {
        assert fs[i] == back[i - n];
      }
    }
    assert Asked(fs) == Between(|front|, n);
    assert Given(fs, c) == Between(|front|, Min(n, MAX_COOKIES));
  }

  /**
   For the polls of this client: as many as are asked for, but no more than seven, since the identifier in
   front uses up one of the eight fields.
   */
  lemma PollCookiesReturned(cookie: Bytes, n: nat, poll: Poll, ver: Version, mint: nat -> Bytes)
    requires |cookie| <= 0xFFFF && n >= 1 && FreshOfLength(mint, |cookie|)
    ensures var returned := |ResponseCookies(IssuedCookies(NtsPollFields(cookie, n, poll, ver), mint))|;
            && returned == Min(n, MAX_COOKIES - 1)
            && (returned == n <==> n < MAX_COOKIES)
  {
    hide IssuedCookies, ResponseCookies;
    var front, block := [UniqueIdentifier(poll.uid)], [NtsCookie(cookie)] + Placeholders(n - 1, |cookie|);
    BlockReturned(front, block, Trail(poll, ver), mint, |cookie|);
    assert NtsPollFields(cookie, n, poll, ver) == EfData(front + block + Trail(poll, ver), [], []);
  }

  /** Seven asked for and six returned, because of one more field in front. */
  lemma SixOfSeven(uid: Bytes, other: Bytes, cookie: Bytes, mint: nat -> Bytes)
    requires |cookie| == 104 && FreshOfLength(mint, 104)
    ensures var front := [UniqueIdentifier(uid), Unknown(7, other)];
            var request := EfData(front + ([NtsCookie(cookie)] + Placeholders(6, 104)) + [], [], []);
            |Asked(Looked(request))| == 7 && |ResponseCookies(IssuedCookies(request, mint))| == 6
  {
    hide IssuedCookies, ResponseCookies, Asked;
    BlockReturned([UniqueIdentifier(uid), Unknown(7, other)], [NtsCookie(cookie)] + Placeholders(6, 104), [], mint, 104);
  }

  /** Fields that fill whole words above the minimum are read as they were written. */
  predicate Exact(f: ExtField, ver: Version) {
    match f
    case UniqueIdentifier(d) => 12 <= |d| <= 1024 && |d| % 4 == 0
    case NtsCookie(d) => 12 <= |d| <= 1024 && |d| % 4 == 0
    case NtsCookiePlaceholder(n) => 12 <= n <= 1024 && n % 4 == 0
    case DraftIdentification(t) => ver == V5 && 12 <= |t| <= 1024 && IsAscii(t)
    case ReferenceIdRequest(n, _) => ver == V5 && 4 <= n <= 512 && n % 4 == 0
    case _ => false
  }

  lemma ExactReread(f: ExtField, ver: Version)
    requires Exact(f, ver)
    ensures ReadableField(f, AUTHENTICATED_MINIMUM, ver) && Reread(f, AUTHENTICATED_MINIMUM, ver) == Ok(f)
  {
    hide Reread, Decode;
    RereadIsSelf(f, AUTHENTICATED_MINIMUM, ver);
    assert Body(f) + Zeros(0) == Body(f);
  }

  lemma ExactRequest(d: EfData, ver: Version)
    requires d.encrypted == [] && d.untrusted == []
    requires forall i :: 0 <= i < |d.authenticated| ==> Exact(d.authenticated[i], ver)
    ensures EfReadable(d, ver) && RereadData(d, ver) == d
  {
    hide Reread, Exact, Encodable, LengthFits, TypeId;
    forall i | 0 <= i < |d.authenticated|
      ensures ReadableField(d.authenticated[i], AUTHENTICATED_MINIMUM, ver)
      ensures Reread(d.authenticated[i], AUTHENTICATED_MINIMUM, ver) == Ok(d.authenticated[i])
    {
      ExactReread(d.authenticated[i], ver);
    }
    var sized := WithMinimum(d.authenticated, AUTHENTICATED_MINIMUM);
    assert Readable(sized, ver);
    assert RereadAll(sized, ver) == d.authenticated;
    assert RereadAll(WithMinimum(d.encrypted, 0), ver) == [];
    assert RereadAll(UntrustedSizes(d.untrusted, ver), ver) == [];
  }

  lemma {:induction false} EnqueueWithin(q: seq<Bytes>, cs: seq<Bytes>)
    requires |q| + |cs| <= MAX_COOKIES
    ensures EnqueueAll(q, cs) == q + cs
    decreases |cs|
  {
    if cs != [] {
      EnqueueWithin(q + [cs[0]], cs[1..]);
      assert q + [cs[0]] + cs[1..] == q + cs;
    } else {
      assert q + cs == q;
    }
  }

  /** The cookies of this server's own making: 104 or 168 bytes long. */
  predicate ServerCookieLength(c: nat) {
    c == 104 || c == 168
  }

  /** The poll for this server's cookies is read by the server exactly as it was written. */
  lemma PollReadExactly(cookie: Bytes, n: nat, poll: Poll, ver: Version)
    requires ServerCookieLength(|cookie|) && n >= 1 && ProperPoll(poll)
    ensures var fields := NtsPollFields(cookie, n, poll, ver);
            EfReadable(fields, ver) && RereadData(fields, ver) == fields
  {
    hide EfReadable, RereadData, Exact;
    TrailExact(poll, ver);
    CookiesExact(poll, cookie);
    var fields := NtsPollFields(cookie, n, poll, ver);
    forall i | 0 <= i < |fields.authenticated|
      ensures Exact(fields.authenticated[i], ver)
    {
      assert fields.authenticated[i] in
             [UniqueIdentifier(poll.uid), NtsCookie(cookie), NtsCookiePlaceholder(|cookie|)] + Trail(poll, ver);
    }
    ExactRequest(fields, ver);
  }

  lemma CookiesExact(poll: Poll, cookie: Bytes)
    requires ServerCookieLength(|cookie|) && ProperPoll(poll)
    ensures forall ver :: Exact(UniqueIdentifier(poll.uid), ver)
    ensures forall ver :: Exact(NtsCookie(cookie), ver) && Exact(NtsCookiePlaceholder(|cookie|), ver)
  {
  }

  lemma TrailExact(poll: Poll, ver: Version)
    ensures forall i :: 0 <= i < |Trail(poll, ver)| ==> Exact(Trail(poll, ver)[i], ver)
  {
    assert IsAscii(DRAFT_VERSION);
  }
}
