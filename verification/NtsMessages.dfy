/** Requests and responses of NTS key establishment: runs of records up to an end marker. */
module NtsMessages {
  import opened Bytes
  import opened NtsRecords

  datatype NtsError =
    | IO
    | UnrecognizedCriticalRecord
    | Invalid
    | NoOverlappingProtocol
    | NoOverlappingAlgorithm
    | UnknownWarning(code: U16)
    | PeerError(code: U16)
    | AeadNotSupported(id: U16)
    | IncorrectSizedKey

  datatype Result<+T> = Ok(value: T) | Err(error: NtsError)

  const MAX_MESSAGE_SIZE := 4096
  const DEFAULT_NUMBER_OF_COOKIES := 8

  /* ---- Any message: a state folded over records ---- */

  type Fold<!S> = (S, Record) -> Result<S>

  /** The state at the end marker, and how many bytes it took to get there. */
  datatype Read<+S> = Read(state: S, length: nat)

  function ReadMessage<S>(input: Bytes, st: S, step: Fold<S>, text: Text): (r: Result<Read<S>>)
    ensures r.Ok? ==> r.value.length <= |input|
    decreases |input|
  {
    match ReadRecord(input, text)
    case None => Err(IO)
    case Some(p) =>
      if p.record.EndOfMessage? then Ok(Read(st, p.length))
      else
        match step(st, p.record)
        case Err(e) => Err(e)
        case Ok(st') =>
          match ReadMessage(input[p.length..], st', step, text)
          case Err(e) => Err(e)
          case Ok(read) => Ok(Read(read.state, p.length + read.length))
  }

  /** Only so many bytes of a peer are looked at. */
  function Limited(input: Bytes): (r: Bytes)
    ensures |r| <= MAX_MESSAGE_SIZE
  {
    input[..Min(|input|, MAX_MESSAGE_SIZE)]
  }

  function StepAll<S>(st: S, recs: seq<Record>, step: Fold<S>): (r: Result<S>)
    decreases |recs|
  {
    if recs == [] then Ok(st)
    else
      match step(st, recs[0])
      case Err(e) => Err(e)
      case Ok(st') => StepAll(st', recs[1..], step)
  }

  predicate AllCanonical(recs: seq<Record>, text: Text) {
    forall i :: 0 <= i < |recs| ==> Canonical(recs[i], text) && !recs[i].EndOfMessage?
  }

  function WriteAll(recs: seq<Record>): (r: Option<Bytes>)
    decreases |recs|
  {
    if recs == [] then Some([])
    else
      match (WriteRecord(recs[0]), WriteAll(recs[1..]))
      case (Some(a), Some(b)) => Some(a + b)
      case _ => None
  }

  /** The bytes that writing the records takes. */
  function SizeOf(recs: seq<Record>): nat {
    if recs == [] then 0 else 4 + |RecordBody(recs[0])| + SizeOf(recs[1..])
  }

  lemma {:induction false} WriteAllSize(recs: seq<Record>, text: Text)
    requires forall i :: 0 <= i < |recs| ==> Canonical(recs[i], text)
    ensures WriteAll(recs).Some? && |WriteAll(recs).value| == SizeOf(recs)
  {
    hide RecordBody, TypeNumber, ToU16;
    if recs != [] {
      WriteAllSize(recs[1..], text);
    }
  }

  /** Reading a written message folds the state over the records that were written. */
  lemma {:induction false} ReadWritten<S>(recs: seq<Record>, rest: Bytes, st: S, step: Fold<S>, text: Text)
    requires AllCanonical(recs, text) && StepAll(st, recs, step).Ok?
    ensures var w := WriteAll(recs + [EndOfMessage]);
            && w.Some?
            && ReadMessage(w.value + rest, st, step, text) == Ok(Read(StepAll(st, recs, step).value, |w.value|))
    decreases |recs|
  {
    hide RecordBody, ReadRecord, WriteRecord, Canonical;
    if recs == [] {
      assert recs + [EndOfMessage] == [EndOfMessage];
      EndWritten(text);
      RecordReadBack(EndOfMessage, rest, text);
    } else {
      var all := recs + [EndOfMessage];
      assert all[1..] == recs[1..] + [EndOfMessage];
      var st' := step(st, recs[0]).value;
      ReadWritten(recs[1..], rest, st', step, text);
      var a, b := WriteRecord(recs[0]), WriteAll(all[1..]).value;
      RecordReadBack(recs[0], b + rest, text);
      assert (a.value + b) + rest == a.value + (b + rest);
      assert (a.value + (b + rest))[|a.value|..] == b + rest;
    }
  }

  lemma EndWritten(text: Text)
    ensures Canonical(EndOfMessage, text)
    ensures WriteAll([EndOfMessage]) == WriteRecord(EndOfMessage)
  {
    hide ToU16, TypeNumber;
    var w := WriteRecord(EndOfMessage).value;
    var rest := [EndOfMessage][1..];
    assert rest == [] && WriteAll(rest) == Some([]);
    assert w + [] == w;
  }

  /** What each step keeps, the whole message keeps; and a weight that no step raises by more than
      the size of its record is paid for by the bytes read. */
  ghost predicate Pays<S(!new)>(step: Fold<S>, inv: S -> bool, weight: S -> nat, text: Text) {
    forall st, rec :: inv(st) && Canonical(rec, text) && step(st, rec).Ok? ==>
      inv(step(st, rec).value) && weight(step(st, rec).value) <= weight(st) + 4 + |RecordBody(rec)|
  }

  lemma {:induction false} ReadPays<S(!new)>(input: Bytes, st: S, step: Fold<S>, text: Text, inv: S -> bool, weight: S -> nat)
    requires Pays(step, inv, weight, text) && inv(st) && ReadMessage(input, st, step, text).Ok?
    ensures var r := ReadMessage(input, st, step, text).value;
            inv(r.state) && weight(r.state) + 4 <= weight(st) + r.length
    decreases |input|
  {
    hide RecordBody, Canonical, ReadRecord;
    var p := ReadRecord(input, text).value;
    ReadIsCanonical(input, text);
    if !p.record.EndOfMessage? {
      ReadPays(input[p.length..], step(st, p.record).value, step, text, inv, weight);
    }
  }

  /** The loop of both parsers: one record at a time until the end marker. */
  method ParseRecords<S>(input: Bytes, start: S, step: Fold<S>, text: Text) returns (r: Result<Read<S>>)
    ensures r == ReadMessage(input, start, step, text)
  {
    hide ReadRecord;
    var st, pos := start, 0;
    while true
      invariant pos <= |input|
      invariant ReadMessage(input, start, step, text) ==
                match ReadMessage(input[pos..], st, step, text)
                case Err(e) => Err(e)
                case Ok(read) => Ok(Read(read.state, pos + read.length))
      decreases |input| - pos
    {
      match ReadRecord(input[pos..], text) {
        case None => return Err(IO);
        case Some(p) =>
          if p.record.EndOfMessage? {
            return Ok(Read(st, pos + p.length));
          }
          match step(st, p.record) {
            case Err(e) => return Err(e);
            case Ok(st') => st := st';
          }
          assert input[pos..][p.length..] == input[pos + p.length..];
          pos := pos + p.length;
      }
    }
  }

  /** The writers: one record after the other. */
  method SerializeRecords(recs: seq<Record>) returns (r: Option<Bytes>)
    ensures r == WriteAll(recs)
  {
    hide WriteRecord;
    var out: Bytes := [];
    assert recs[0..] == recs;
    assert WriteAll(recs).Some? ==> out + WriteAll(recs).value == WriteAll(recs).value;
    for i := 0 to |recs|
      invariant WriteAll(recs) ==
                match WriteAll(recs[i..]) case None => None case Some(b) => Some(out + b)
    {
      match WriteRecord(recs[i]) {
        case None => return None;
        case Some(b) =>
          if WriteAll(recs[i + 1..]).Some? {
            assert out + (b + WriteAll(recs[i + 1..]).value) == (out + b) + WriteAll(recs[i + 1..]).value;
          }
          out := out + b;
      }
    }
    assert out + [] == out;
    r := Some(out);
  }

  /* ---- Requests ---- */

  datatype Request =
    | KeyExchange(algorithms: seq<U16>, protocols: seq<U16>, deniedServers: seq<Bytes>)
    | FixedKey(authentication: Bytes, c2s: Bytes, s2c: Bytes, algorithm: U16, protocol: U16, keepAlive: bool)
    | Support(authentication: Bytes, wantsProtocols: bool, wantsAlgorithms: bool, keepAlive: bool)

  datatype RequestState = RequestState(
    protocols: Option<seq<U16>>, algorithms: Option<seq<U16>>, authentication: Option<Bytes>,
    denied: seq<Bytes>, wantsProtocols: bool, wantsAlgorithms: bool, keepAlive: bool,
    keys: Option<(Bytes, Bytes)>)

  const EMPTY_REQUEST := RequestState(None, None, None, [], false, false, false, None)

  function RequestStep(st: RequestState, rec: Record): Result<RequestState> {
    match rec
    case EndOfMessage => Ok(st)
    case NextProtocol(xs) => if st.protocols.Some? then Err(Invalid) else Ok(st.(protocols := Some(xs)))
    case AeadAlgorithm(xs) => if st.algorithms.Some? then Err(Invalid) else Ok(st.(algorithms := Some(xs)))
    case FixedKeyRequest(c2s, s2c) => if st.keys.Some? then Err(Invalid) else Ok(st.(keys := Some((c2s, s2c))))
    case SupportedAlgorithmList(_) => if st.wantsAlgorithms then Err(Invalid) else Ok(st.(wantsAlgorithms := true))
    case SupportedNextProtocolList(_) => if st.wantsProtocols then Err(Invalid) else Ok(st.(wantsProtocols := true))
    case NtpServerDeny(name) => Ok(st.(denied := st.denied + [name]))
    case Authentication(key) => if st.authentication.Some? then Err(Invalid) else Ok(st.(authentication := Some(key)))
    case KeepAlive => Ok(st.(keepAlive := true))
    case Unknown(_, critical, _) => if critical then Err(UnrecognizedCriticalRecord) else Ok(st)
    case Server(_) => Ok(st)
    case Port(_) => Ok(st)
    case ErrorRecord(_) => Err(Invalid)
    case WarningRecord(_) => Err(Invalid)
    case NewCookie(_) => Err(Invalid)
  }

  function KeySize(algorithm: U16): Option<nat> {
    if algorithm == 15 then Some(32) else if algorithm == 17 then Some(64) else None
  }

  function RequestFrom(st: RequestState): Result<Request> {
    if st.wantsAlgorithms || st.wantsProtocols then
      if st.authentication.Some? && st.keys.None? && st.protocols.None? && st.algorithms.None? then
        Ok(Support(st.authentication.value, st.wantsProtocols, st.wantsAlgorithms, st.keepAlive))
      else Err(Invalid)
    else if st.keys.Some? then
      if st.authentication.None? || st.protocols.None? || st.algorithms.None? then Err(Invalid)
      else if |st.protocols.value| != 1 || |st.algorithms.value| != 1 then Err(Invalid)
      else
        var algorithm, (c2s, s2c) := st.algorithms.value[0], st.keys.value;
        match KeySize(algorithm)
        case None => Err(AeadNotSupported(algorithm))
        case Some(n) =>
          if |c2s| == n && |s2c| == n then
            Ok(FixedKey(st.authentication.value, c2s, s2c, algorithm, st.protocols.value[0], st.keepAlive))
          else Err(IncorrectSizedKey)
    else if st.protocols.Some? && st.algorithms.Some? then
      Ok(KeyExchange(st.algorithms.value, st.protocols.value, st.denied))
    else Err(Invalid)
  }

  function ParseRequest(input: Bytes, text: Text): Result<Request> {
    match ReadMessage(Limited(input), EMPTY_REQUEST, RequestStep, text)
    case Err(e) => Err(e)
    case Ok(read) => RequestFrom(read.state)
  }

  function Denials(names: seq<Bytes>): seq<Record> {
    seq(|names|, i requires 0 <= i < |names| => NtpServerDeny(names[i]))
  }

  function Only(b: bool, rec: Record): seq<Record> {
    if b then [rec] else []
  }

  /** The records of a request in the order of writing, up to the end marker. */
  function RequestRecords(r: Request): (recs: seq<Record>) {
    match r
    case KeyExchange(algorithms, protocols, denied) =>
      [NextProtocol(protocols), AeadAlgorithm(algorithms)] + Denials(denied)
    case FixedKey(authentication, c2s, s2c, algorithm, protocol, keepAlive) =>
      [Authentication(authentication), FixedKeyRequest(c2s, s2c), NextProtocol([protocol]), AeadAlgorithm([algorithm])]
      + Only(keepAlive, KeepAlive)
    case Support(authentication, wantsProtocols, wantsAlgorithms, keepAlive) =>
      [Authentication(authentication)]
      + Only(wantsProtocols, SupportedNextProtocolList([]))
      + Only(wantsAlgorithms, SupportedAlgorithmList([]))
      + Only(keepAlive, KeepAlive)
  }

  function SerializeRequest(r: Request): Option<Bytes> {
    WriteAll(RequestRecords(r) + [EndOfMessage])
  }

  /* ---- Sizes and folds of joined runs of records ---- */

  lemma {:induction false} SizeOfJoin(a: seq<Record>, b: seq<Record>)
    ensures SizeOf(a + b) == SizeOf(a) + SizeOf(b)
  {
    hide RecordBody;
    if a == [] {
      assert a + b == b;
    } else {
      assert (a + b)[1..] == a[1..] + b;
      SizeOfJoin(a[1..], b);
    }
  }

  lemma {:induction false} StepAllJoin<S>(st: S, a: seq<Record>, b: seq<Record>, step: Fold<S>)
    requires StepAll(st, a, step).Ok?
    ensures StepAll(st, a + b, step) == StepAll(StepAll(st, a, step).value, b, step)
    decreases |a|
  {
    if a == [] {
      assert a + b == b;
    } else {
      assert (a + b)[1..] == a[1..] + b;
      StepAllJoin(step(st, a[0]).value, a[1..], b, step);
    }
  }

  lemma StepOne<S>(st: S, rec: Record, step: Fold<S>)
    requires step(st, rec).Ok?
    ensures StepAll(st, [rec], step) == step(st, rec)
    ensures SizeOf([rec]) == 4 + |RecordBody(rec)|
  {
    hide RecordBody;
    var rest := [rec][1..];
    assert rest == [];
  }

  /** One more record at the end. */
  lemma StepMore<S>(st: S, recs: seq<Record>, rec: Record, step: Fold<S>, mid: S)
    requires StepAll(st, recs, step) == Ok(mid) && step(mid, rec).Ok?
    ensures StepAll(st, recs + [rec], step) == step(mid, rec)
    ensures SizeOf(recs + [rec]) == SizeOf(recs) + 4 + |RecordBody(rec)|
  {
    hide RecordBody;
    StepAllJoin(st, recs, [rec], step);
    StepOne(mid, rec, step);
    SizeOfJoin(recs, [rec]);
  }

  lemma StepOnly<S>(st: S, recs: seq<Record>, b: bool, rec: Record, step: Fold<S>, mid: S)
    requires StepAll(st, recs, step) == Ok(mid) && step(mid, rec).Ok?
    ensures StepAll(st, recs + Only(b, rec), step) == if b then step(mid, rec) else Ok(mid)
    ensures SizeOf(recs + Only(b, rec)) == SizeOf(recs) + if b then 4 + |RecordBody(rec)| else 0
  {
    hide RecordBody;
    if b {
      StepMore(st, recs, rec, step, mid);
    } else {
      assert recs + Only(b, rec) == recs;
    }
  }

  /* ---- Requests, there and back ---- */

  function ListWeight(o: Option<seq<U16>>): nat {
    if o.Some? then 4 + 2 * |o.value| else 0
  }

  function TextWeight(o: Option<Bytes>): nat {
    if o.Some? then 4 + |o.value| else 0
  }

  function NamesWeight(names: seq<Bytes>): nat {
    if names == [] then 0 else NamesWeight(names[..|names| - 1]) + 4 + |names[|names| - 1]|
  }

  function FlagWeight(b: bool): nat {
    if b then 4 else 0
  }

  /** The bytes that records with this content would take. */
  function RequestWeight(st: RequestState): nat {
    ListWeight(st.protocols) + ListWeight(st.algorithms) + TextWeight(st.authentication) + NamesWeight(st.denied)
    + FlagWeight(st.wantsProtocols) + FlagWeight(st.wantsAlgorithms) + FlagWeight(st.keepAlive)
    + if st.keys.Some? then 4 + |st.keys.value.0| + |st.keys.value.1| else 0
  }

  /** The content came from records that fit their length fields. */
  predicate RequestInv(st: RequestState, text: Text) {
    && (st.protocols.Some? ==> 2 * |st.protocols.value| <= 0xFFFF)
    && (st.algorithms.Some? ==> 2 * |st.algorithms.value| <= 0xFFFF)
    && (st.authentication.Some? ==> |st.authentication.value| <= 0xFFFF && text(st.authentication.value))
    && (forall i :: 0 <= i < |st.denied| ==> |st.denied[i]| <= 0xFFFF && text(st.denied[i]))
    && (st.keys.Some? ==> |st.keys.value.0| == |st.keys.value.1| && |st.keys.value.0| + |st.keys.value.1| <= 0xFFFF)
  }

  lemma RequestStepPays(st: RequestState, rec: Record, text: Text)
    requires RequestInv(st, text) && Canonical(rec, text) && RequestStep(st, rec).Ok?
    ensures var r := RequestStep(st, rec).value;
            RequestInv(r, text) && RequestWeight(r) <= RequestWeight(st) + 4 + |RecordBody(rec)|
  {
    hide WriteList, NamesWeight;
    if rec.NtpServerDeny? {
      NameAdded(st.denied, rec.denied);
    }
  }

  lemma NameAdded(names: seq<Bytes>, name: Bytes)
    ensures NamesWeight(names + [name]) == NamesWeight(names) + 4 + |name|
  {
    assert (names + [name])[..|names|] == names;
  }

  /** What a request keeps of the records it came from can be written as records again. */
  predicate RequestOk(r: Request, text: Text) {
    match r
    case KeyExchange(algorithms, protocols, denied) =>
      && 2 * |algorithms| <= 0xFFFF && 2 * |protocols| <= 0xFFFF
      && forall i :: 0 <= i < |denied| ==> |denied[i]| <= 0xFFFF && text(denied[i])
    case FixedKey(authentication, c2s, s2c, algorithm, _, _) =>
      && |authentication| <= 0xFFFF && text(authentication)
      && KeySize(algorithm).Some? && |c2s| == |s2c| == KeySize(algorithm).value
    case Support(authentication, wantsProtocols, wantsAlgorithms, _) =>
      && |authentication| <= 0xFFFF && text(authentication)
      && (wantsProtocols || wantsAlgorithms)
  }

  lemma {:induction false} DenialsFold(st: RequestState, recs: seq<Record>, mid: RequestState, names: seq<Bytes>)
    requires StepAll(st, recs, RequestStep) == Ok(mid)
    ensures StepAll(st, recs + Denials(names), RequestStep) == Ok(mid.(denied := mid.denied + names))
    ensures SizeOf(recs + Denials(names)) == SizeOf(recs) + NamesWeight(names)
    decreases |names|
  {
    hide RequestStep, RecordBody;
    if names == [] {
      assert recs + Denials(names) == recs && mid.denied + names == mid.denied;
    } else {
      var init, last := names[..|names| - 1], names[|names| - 1];
      DenialsFold(st, recs, mid, init);
      var mid' := mid.(denied := mid.denied + init);
      DenialStep(mid', last);
      StepMore(st, recs + Denials(init), NtpServerDeny(last), RequestStep, mid');
      assert recs + Denials(names) == recs + Denials(init) + [NtpServerDeny(last)];
      assert mid.denied + init + [last] == mid.denied + names;
    }
  }

  lemma DenialStep(st: RequestState, name: Bytes)
    ensures RequestStep(st, NtpServerDeny(name)) == Ok(st.(denied := st.denied + [name]))
    ensures RecordBody(NtpServerDeny(name)) == name
  {
  }

  lemma KeyExchangeFold(algorithms: seq<U16>, protocols: seq<U16>, denied: seq<Bytes>)
    ensures var recs := RequestRecords(KeyExchange(algorithms, protocols, denied));
            && StepAll(EMPTY_REQUEST, recs, RequestStep) ==
               Ok(EMPTY_REQUEST.(protocols := Some(protocols), algorithms := Some(algorithms), denied := denied))
            && SizeOf(recs) == 8 + 2 * |algorithms| + 2 * |protocols| + NamesWeight(denied)
  {
    hide WriteList, NamesWeight, StepAll, SizeOf;
    var s1 := EMPTY_REQUEST.(protocols := Some(protocols));
    var s2 := s1.(algorithms := Some(algorithms));
    StepOne(EMPTY_REQUEST, NextProtocol(protocols), RequestStep);
    StepMore(EMPTY_REQUEST, [NextProtocol(protocols)], AeadAlgorithm(algorithms), RequestStep, s1);
    var recs := [NextProtocol(protocols)] + [AeadAlgorithm(algorithms)];
    DenialsFold(EMPTY_REQUEST, recs, s2, denied);
    assert recs == [NextProtocol(protocols), AeadAlgorithm(algorithms)];
    assert [] + denied == denied;
  }

  lemma FixedKeyFold(r: Request)
    requires r.FixedKey?
    ensures var recs := RequestRecords(r);
            && StepAll(EMPTY_REQUEST, recs, RequestStep) ==
               Ok(EMPTY_REQUEST.(authentication := Some(r.authentication), keys := Some((r.c2s, r.s2c)),
                                 protocols := Some([r.protocol]), algorithms := Some([r.algorithm]),
                                 keepAlive := r.keepAlive))
            && SizeOf(recs) == 20 + |r.authentication| + |r.c2s| + |r.s2c| + FlagWeight(r.keepAlive)
  {
    hide WriteList, NamesWeight, StepAll, SizeOf;
    var a, k := Authentication(r.authentication), FixedKeyRequest(r.c2s, r.s2c);
    var p, g := NextProtocol([r.protocol]), AeadAlgorithm([r.algorithm]);
    var s1 := EMPTY_REQUEST.(authentication := Some(r.authentication));
    var s2 := s1.(keys := Some((r.c2s, r.s2c)));
    var s3 := s2.(protocols := Some([r.protocol]));
    var s4 := s3.(algorithms := Some([r.algorithm]));
    StepOne(EMPTY_REQUEST, a, RequestStep);
    StepMore(EMPTY_REQUEST, [a], k, RequestStep, s1);
    StepMore(EMPTY_REQUEST, [a] + [k], p, RequestStep, s2);
    StepMore(EMPTY_REQUEST, [a] + [k] + [p], g, RequestStep, s3);
    StepOnly(EMPTY_REQUEST, [a] + [k] + [p] + [g], r.keepAlive, KeepAlive, RequestStep, s4);
    assert [a] + [k] + [p] + [g] == [a, k, p, g];
  }

  lemma SupportFold(r: Request)
    requires r.Support?
    ensures var recs := RequestRecords(r);
            && StepAll(EMPTY_REQUEST, recs, RequestStep) ==
               Ok(EMPTY_REQUEST.(authentication := Some(r.authentication), wantsProtocols := r.wantsProtocols,
                                 wantsAlgorithms := r.wantsAlgorithms, keepAlive := r.keepAlive))
            && SizeOf(recs) == 4 + |r.authentication| + FlagWeight(r.wantsProtocols) + FlagWeight(r.wantsAlgorithms)
                               + FlagWeight(r.keepAlive)
  {
    hide WriteList, NamesWeight, StepAll, SizeOf;
    var a := [Authentication(r.authentication)];
    var s1 := EMPTY_REQUEST.(authentication := Some(r.authentication));
    var s2 := s1.(wantsProtocols := r.wantsProtocols);
    var s3 := s2.(wantsAlgorithms := r.wantsAlgorithms);
    var b := a + Only(r.wantsProtocols, SupportedNextProtocolList([]));
    var c := b + Only(r.wantsAlgorithms, SupportedAlgorithmList([]));
    StepOne(EMPTY_REQUEST, Authentication(r.authentication), RequestStep);
    StepOnly(EMPTY_REQUEST, a, r.wantsProtocols, SupportedNextProtocolList([]), RequestStep, s1);
    StepOnly(EMPTY_REQUEST, b, r.wantsAlgorithms, SupportedAlgorithmList([]), RequestStep, s2);
    StepOnly(EMPTY_REQUEST, c, r.keepAlive, KeepAlive, RequestStep, s3);
  }

  lemma RequestRecordsCanonical(r: Request, text: Text)
    requires RequestOk(r, text)
    ensures AllCanonical(RequestRecords(r), text)
  {
    hide WriteList, Canonical;
    match r
    case KeyExchange(algorithms, protocols, denied) =>
      ListsCanonical(protocols, algorithms, text);
      DenialsCanonical(denied, text);
    case FixedKey(authentication, c2s, s2c, algorithm, protocol, keepAlive) =>
      ListsCanonical([protocol], [algorithm], text);
      KeysCanonical(authentication, c2s, s2c, text);
    case Support(authentication, _, _, _) => WishesCanonical(authentication, text);
  }

  lemma ListsCanonical(protocols: seq<U16>, algorithms: seq<U16>, text: Text)
    requires 2 * |protocols| <= 0xFFFF && 2 * |algorithms| <= 0xFFFF
    ensures Canonical(NextProtocol(protocols), text) && Canonical(AeadAlgorithm(algorithms), text)
    ensures Canonical(KeepAlive, text)
  {
    hide WriteList;
  }

  lemma DenialsCanonical(names: seq<Bytes>, text: Text)
    requires forall i :: 0 <= i < |names| ==> |names[i]| <= 0xFFFF && text(names[i])
    ensures AllCanonical(Denials(names), text)
  {
  }

  lemma KeysCanonical(authentication: Bytes, c2s: Bytes, s2c: Bytes, text: Text)
    requires |authentication| <= 0xFFFF && text(authentication) && |c2s| == |s2c| && |c2s| + |s2c| <= 0xFFFF
    ensures Canonical(Authentication(authentication), text) && Canonical(FixedKeyRequest(c2s, s2c), text)
  {
  }

  lemma WishesCanonical(authentication: Bytes, text: Text)
    requires |authentication| <= 0xFFFF && text(authentication)
    ensures Canonical(Authentication(authentication), text) && Canonical(KeepAlive, text)
    ensures Canonical(SupportedNextProtocolList([]), text) && Canonical(SupportedAlgorithmList([]), text)
  {
  }

  /** The records of a request lead back to it, and weigh no more than those it came from. */
  lemma RequestRefolds(st: RequestState, text: Text)
    requires RequestInv(st, text) && RequestFrom(st).Ok?
    ensures var r := RequestFrom(st).value;
            && RequestOk(r, text)
            && SizeOf(RequestRecords(r)) <= RequestWeight(st)
            && StepAll(EMPTY_REQUEST, RequestRecords(r), RequestStep).Ok?
            && RequestFrom(StepAll(EMPTY_REQUEST, RequestRecords(r), RequestStep).value) == Ok(r)
  {
    hide RequestRecords, RequestStep;
    var r := RequestFrom(st).value;
    match r
    case KeyExchange(algorithms, protocols, denied) => KeyExchangeFold(algorithms, protocols, denied);
    case FixedKey(_, _, _, _, _, _) => FixedKeyFold(r);
    case Support(_, _, _, _) => SupportFold(r);
  }

  /**
   A request that is read from any bytes can be written; that takes no more bytes than were read,
   and reading them, whatever follows, gives the same request.
   */
  lemma RequestRoundTrip(input: Bytes, rest: Bytes, text: Text)
    requires ParseRequest(input, text).Ok?
    ensures var r := ParseRequest(input, text).value;
            var b := SerializeRequest(r);
            && b.Some?
            && |b.value| <= ReadMessage(Limited(input), EMPTY_REQUEST, RequestStep, text).value.length <= MAX_MESSAGE_SIZE
            && ParseRequest(b.value + rest, text) == Ok(r)
  {
    hide RequestRecords, RequestStep, RequestFrom, RequestInv, RequestWeight;
    var inv := (st: RequestState) => RequestInv(st, text);
    assert Pays(RequestStep, inv, RequestWeight, text) by {
      forall st, rec | inv(st) && Canonical(rec, text) && RequestStep(st, rec).Ok?
        ensures inv(RequestStep(st, rec).value)
        ensures RequestWeight(RequestStep(st, rec).value) <= RequestWeight(st) + 4 + |RecordBody(rec)|
      {
        RequestStepPays(st, rec, text);
      }
    }
    EmptyRequestWeighsNothing(text);
    ReadPays(Limited(input), EMPTY_REQUEST, RequestStep, text, inv, RequestWeight);
    var read := ReadMessage(Limited(input), EMPTY_REQUEST, RequestStep, text).value;
    RequestRefolds(read.state, text);
    var r := RequestFrom(read.state).value;
    RequestRecordsCanonical(r, text);
    MessageRoundTrip(RequestRecords(r), rest, EMPTY_REQUEST, RequestStep, text, read.length);
  }

  lemma EmptyRequestWeighsNothing(text: Text)
    ensures RequestInv(EMPTY_REQUEST, text) && RequestWeight(EMPTY_REQUEST) == 0
  {
  }

  /** Written within the limit, a message is read back as the fold of its records. */
  lemma MessageRoundTrip<S>(recs: seq<Record>, rest: Bytes, st: S, step: Fold<S>, text: Text, length: nat)
    requires AllCanonical(recs, text) && StepAll(st, recs, step).Ok?
    requires SizeOf(recs) + 4 <= length <= MAX_MESSAGE_SIZE
    ensures var w := WriteAll(recs + [EndOfMessage]);
            && w.Some? && |w.value| <= length
            && ReadMessage(Limited(w.value + rest), st, step, text) == Ok(Read(StepAll(st, recs, step).value, |w.value|))
  {
    hide RecordBody, Canonical, SizeOf, WriteAll, StepAll, ReadMessage, AllCanonical;
    var all := recs + [EndOfMessage];
    WrittenSize(recs, text);
    var w := WriteAll(all).value;
    var more := Limited(w + rest)[|w|..];
    assert Limited(w + rest) == w + more;
    ReadWritten(recs, more, st, step, text);
  }

  lemma WrittenSize(recs: seq<Record>, text: Text)
    requires AllCanonical(recs, text)
    ensures var w := WriteAll(recs + [EndOfMessage]); w.Some? && |w.value| == SizeOf(recs) + 4
  {
    hide RecordBody, Canonical;
    SizeOfJoin(recs, [EndOfMessage]);
    EndWritten(text);
    WriteAllSize(recs + [EndOfMessage], text);
    EndSize();
  }

  lemma EndSize()
    ensures SizeOf([EndOfMessage]) == 4
  {
    assert [EndOfMessage][1..] == [];
  }

  /* ---- Responses ---- */

  datatype Response = Response(
    protocol: U16, algorithm: U16, cookies: seq<Bytes>, server: Option<Bytes>, port: Option<U16>, keepAlive: bool)

  datatype ResponseState = ResponseState(
    protocol: Option<U16>, algorithm: Option<U16>, cookies: seq<Bytes>, server: Option<Bytes>,
    port: Option<U16>, keepAlive: bool)

  const EMPTY_RESPONSE := ResponseState(None, None, [], None, None, false)

  function ResponseStep(st: ResponseState, rec: Record): Result<ResponseState> {
    match rec
    case EndOfMessage => Ok(st)
    case NextProtocol(xs) =>
      if st.protocol.Some? then Err(Invalid)
      else if xs == [] then Err(NoOverlappingProtocol)
      else if |xs| == 1 then Ok(st.(protocol := Some(xs[0])))
      else Err(Invalid)
    case AeadAlgorithm(xs) =>
      if st.algorithm.Some? then Err(Invalid)
      else if xs == [] then Err(NoOverlappingAlgorithm)
      else if |xs| == 1 then Ok(st.(algorithm := Some(xs[0])))
      else Err(Invalid)
    case NewCookie(b) =>
      if |st.cookies| < DEFAULT_NUMBER_OF_COOKIES then Ok(st.(cookies := st.cookies + [b])) else Ok(st)
    case Server(name) => if st.server.Some? then Err(Invalid) else Ok(st.(server := Some(name)))
    case Port(p) => if st.port.Some? then Err(Invalid) else Ok(st.(port := Some(p)))
    case KeepAlive => Ok(st.(keepAlive := true))
    case ErrorRecord(code) => Err(PeerError(code))
    case WarningRecord(code) => Err(UnknownWarning(code))
    case Unknown(_, critical, _) => if critical then Err(UnrecognizedCriticalRecord) else Ok(st)
    case Authentication(_) => Ok(st)
    case NtpServerDeny(_) => Err(Invalid)
    case FixedKeyRequest(_, _) => Err(Invalid)
    case SupportedAlgorithmList(_) => Err(Invalid)
    case SupportedNextProtocolList(_) => Err(Invalid)
  }

  function ResponseFrom(st: ResponseState): Result<Response> {
    if st.protocol.Some? && st.algorithm.Some? then
      Ok(Response(st.protocol.value, st.algorithm.value, st.cookies, st.server, st.port, st.keepAlive))
    else Err(Invalid)
  }

  function ParseResponse(input: Bytes, text: Text): Result<Response> {
    match ReadMessage(Limited(input), EMPTY_RESPONSE, ResponseStep, text)
    case Err(e) => Err(e)
    case Ok(read) => ResponseFrom(read.state)
  }

  function Cookies(cs: seq<Bytes>): seq<Record> {
    seq(|cs|, i requires 0 <= i < |cs| => NewCookie(cs[i]))
  }

  function ServerRecord(server: Option<Bytes>): Record {
    Server(if server.Some? then server.value else [])
  }

  function PortRecord(port: Option<U16>): Record {
    Port(if port.Some? then port.value else 0)
  }

  function ResponseRecords(r: Response): (recs: seq<Record>) {
    [NextProtocol([r.protocol]), AeadAlgorithm([r.algorithm])] + Cookies(r.cookies)
    + Only(r.server.Some?, ServerRecord(r.server)) + Only(r.port.Some?, PortRecord(r.port)) + Only(r.keepAlive, KeepAlive)
  }

  function SerializeResponse(r: Response): Option<Bytes> {
    WriteAll(ResponseRecords(r) + [EndOfMessage])
  }

  function ResponseWeight(st: ResponseState): nat {
    (if st.protocol.Some? then 6 else 0) + (if st.algorithm.Some? then 6 else 0) + NamesWeight(st.cookies)
    + TextWeight(st.server) + (if st.port.Some? then 6 else 0) + FlagWeight(st.keepAlive)
  }

  predicate ResponseInv(st: ResponseState, text: Text) {
    && |st.cookies| <= DEFAULT_NUMBER_OF_COOKIES
    && (forall i :: 0 <= i < |st.cookies| ==> |st.cookies[i]| <= 0xFFFF)
    && (st.server.Some? ==> |st.server.value| <= 0xFFFF && text(st.server.value))
  }

  lemma ResponseStepPays(st: ResponseState, rec: Record, text: Text)
    requires ResponseInv(st, text) && Canonical(rec, text) && ResponseStep(st, rec).Ok?
    ensures var r := ResponseStep(st, rec).value;
            ResponseInv(r, text) && ResponseWeight(r) <= ResponseWeight(st) + 4 + |RecordBody(rec)|
  {
    hide WriteList, NamesWeight;
    if rec.NewCookie? {
      NameAdded(st.cookies, rec.cookie);
    }
  }

  lemma {:induction false} CookiesFold(st: ResponseState, recs: seq<Record>, mid: ResponseState, cs: seq<Bytes>)
    requires StepAll(st, recs, ResponseStep) == Ok(mid) && |mid.cookies| + |cs| <= DEFAULT_NUMBER_OF_COOKIES
    ensures StepAll(st, recs + Cookies(cs), ResponseStep) == Ok(mid.(cookies := mid.cookies + cs))
    ensures SizeOf(recs + Cookies(cs)) == SizeOf(recs) + NamesWeight(cs)
    decreases |cs|
  {
    hide ResponseStep, RecordBody;
    if cs == [] {
      assert recs + Cookies(cs) == recs && mid.cookies + cs == mid.cookies;
    } else {
      var init, last := cs[..|cs| - 1], cs[|cs| - 1];
      CookiesFold(st, recs, mid, init);
      var mid' := mid.(cookies := mid.cookies + init);
      CookieStep(mid', last);
      StepMore(st, recs + Cookies(init), NewCookie(last), ResponseStep, mid');
      assert recs + Cookies(cs) == recs + Cookies(init) + [NewCookie(last)];
      assert mid.cookies + init + [last] == mid.cookies + cs;
    }
  }

  lemma CookieStep(st: ResponseState, cookie: Bytes)
    requires |st.cookies| < DEFAULT_NUMBER_OF_COOKIES
    ensures ResponseStep(st, NewCookie(cookie)) == Ok(st.(cookies := st.cookies + [cookie]))
    ensures RecordBody(NewCookie(cookie)) == cookie
  {
  }

  lemma ResponseFold(r: Response)
    requires |r.cookies| <= DEFAULT_NUMBER_OF_COOKIES
    ensures var recs := ResponseRecords(r);
            && StepAll(EMPTY_RESPONSE, recs, ResponseStep) ==
               Ok(ResponseState(Some(r.protocol), Some(r.algorithm), r.cookies, r.server, r.port, r.keepAlive))
            && SizeOf(recs) == 12 + NamesWeight(r.cookies) + TextWeight(r.server)
                               + (if r.port.Some? then 6 else 0) + FlagWeight(r.keepAlive)
  {
    hide WriteList, NamesWeight, StepAll, SizeOf;
    var p, g := NextProtocol([r.protocol]), AeadAlgorithm([r.algorithm]);
    var s1 := EMPTY_RESPONSE.(protocol := Some(r.protocol));
    var s2 := s1.(algorithm := Some(r.algorithm));
    var s3 := s2.(cookies := r.cookies);
    var s4 := s3.(server := r.server);
    var s5 := s4.(port := r.port);
    var a := [p] + [g] + Cookies(r.cookies);
    var b := a + Only(r.server.Some?, ServerRecord(r.server));
    var c := b + Only(r.port.Some?, PortRecord(r.port));
    StepOne(EMPTY_RESPONSE, p, ResponseStep);
    StepMore(EMPTY_RESPONSE, [p], g, ResponseStep, s1);
    CookiesFold(EMPTY_RESPONSE, [p] + [g], s2, r.cookies);
    assert [] + r.cookies == r.cookies;
    StepOnly(EMPTY_RESPONSE, a, r.server.Some?, ServerRecord(r.server), ResponseStep, s3);
    StepOnly(EMPTY_RESPONSE, b, r.port.Some?, PortRecord(r.port), ResponseStep, s4);
    StepOnly(EMPTY_RESPONSE, c, r.keepAlive, KeepAlive, ResponseStep, s5);
    assert [p] + [g] == [p, g];
  }

  predicate ResponseOk(r: Response, text: Text) {
    && |r.cookies| <= DEFAULT_NUMBER_OF_COOKIES
    && (forall i :: 0 <= i < |r.cookies| ==> |r.cookies[i]| <= 0xFFFF)
    && (r.server.Some? ==> |r.server.value| <= 0xFFFF && text(r.server.value))
  }

  lemma ResponseRecordsCanonical(r: Response, text: Text)
    requires ResponseOk(r, text)
    ensures AllCanonical(ResponseRecords(r), text)
  {
    hide WriteList;
  }

  /** As for requests: what is read can be written, in no more bytes, and is then read the same. */
  lemma ResponseRoundTrip(input: Bytes, rest: Bytes, text: Text)
    requires ParseResponse(input, text).Ok?
    ensures var r := ParseResponse(input, text).value;
            var b := SerializeResponse(r);
            && b.Some?
            && |b.value| <= ReadMessage(Limited(input), EMPTY_RESPONSE, ResponseStep, text).value.length <= MAX_MESSAGE_SIZE
            && ParseResponse(b.value + rest, text) == Ok(r)
  {
    hide ResponseRecords, ResponseStep, ResponseInv, ResponseWeight;
    var inv := (st: ResponseState) => ResponseInv(st, text);
    assert Pays(ResponseStep, inv, ResponseWeight, text) by {
      forall st, rec | inv(st) && Canonical(rec, text) && ResponseStep(st, rec).Ok?
        ensures inv(ResponseStep(st, rec).value)
        ensures ResponseWeight(ResponseStep(st, rec).value) <= ResponseWeight(st) + 4 + |RecordBody(rec)|
      {
        ResponseStepPays(st, rec, text);
      }
    }
    EmptyResponseWeighsNothing(text);
    ReadPays(Limited(input), EMPTY_RESPONSE, ResponseStep, text, inv, ResponseWeight);
    var read := ReadMessage(Limited(input), EMPTY_RESPONSE, ResponseStep, text).value;
    var r := ResponseFrom(read.state).value;
    ResponseWeightOf(read.state, r, text);
    ResponseFold(r);
    ResponseRecordsCanonical(r, text);
    MessageRoundTrip(ResponseRecords(r), rest, EMPTY_RESPONSE, ResponseStep, text, read.length);
  }

  lemma EmptyResponseWeighsNothing(text: Text)
    ensures ResponseInv(EMPTY_RESPONSE, text) && ResponseWeight(EMPTY_RESPONSE) == 0
  {
  }

  lemma ResponseWeightOf(st: ResponseState, r: Response, text: Text)
    requires ResponseFrom(st) == Ok(r) && ResponseInv(st, text)
    ensures ResponseOk(r, text)
    ensures ResponseWeight(st) == 12 + NamesWeight(r.cookies) + TextWeight(r.server)
                                  + (if r.port.Some? then 6 else 0) + FlagWeight(r.keepAlive)
  {
  }

  /* ---- The parsers as they run ---- */

  method ParseRequestBytes(input: Bytes, text: Text) returns (r: Result<Request>)
    ensures r == ParseRequest(input, text)
  {
    var read := ParseRecords(Limited(input), EMPTY_REQUEST, RequestStep, text);
    r := match read case Err(e) => Err(e) case Ok(done) => RequestFrom(done.state);
  }

  method ParseResponseBytes(input: Bytes, text: Text) returns (r: Result<Response>)
    ensures r == ParseResponse(input, text)
  {
    var read := ParseRecords(Limited(input), EMPTY_RESPONSE, ResponseStep, text);
    r := match read case Err(e) => Err(e) case Ok(done) => ResponseFrom(done.state);
  }
}
