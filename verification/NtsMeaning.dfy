/**
 What a message of NTS key establishment means, said of its records without a state: which runs of records are
 accepted, and what is taken from them.
 */
module NtsMeanings {
  import opened Bytes
  import opened NtsRecords
  import opened NtsMessages
  import K = KeySets

  /* ---- The records of a message ---- */

  /** The records up to the end marker. */
  function RecordsOf(input: Bytes, text: Text): Option<seq<Record>>
    decreases |input|
  {
    match ReadRecord(input, text)
    case None => None
    case Some(p) =>
      if p.record.EndOfMessage? then Some([])
      else
        match RecordsOf(input[p.length..], text)
        case None => None
        case Some(recs) => Some([p.record] + recs)
  }

  /** A message is read exactly when it is whole and every step on its records can be taken. */
  lemma {:induction false} ReadByRecords<S>(input: Bytes, st: S, step: Fold<S>, text: Text)
    ensures var r, recs := ReadMessage(input, st, step, text), RecordsOf(input, text);
            && (r.Ok? <==> recs.Some? && StepAll(st, recs.value, step).Ok?)
            && (r.Ok? ==> StepAll(st, recs.value, step) == Ok(r.value.state))
            && (recs.Some? ==> forall i :: 0 <= i < |recs.value| ==> !recs.value[i].EndOfMessage?)
    decreases |input|
  {
    hide ReadRecord;
    var p := ReadRecord(input, text);
    if p.Some? && !p.value.record.EndOfMessage? {
      var rec, rest := p.value.record, input[p.value.length..];
      if step(st, rec).Ok? {
        ReadByRecords(rest, step(st, rec).value, step, text);
      } else {
        ReadByRecords(rest, st, step, text);
      }
      if RecordsOf(rest, text).Some? {
        var recs := RecordsOf(rest, text).value;
        assert ([rec] + recs)[1..] == recs;
      }
    }
  }

  /** A run of steps can be taken exactly when all but the last can, and then the last. */
  lemma {:induction false} LastStep<S>(st: S, recs: seq<Record>, rec: Record, step: Fold<S>)
    ensures var r := StepAll(st, recs, step);
            StepAll(st, recs + [rec], step) == match r case Err(e) => Err(e) case Ok(mid) => step(mid, rec)
    decreases |recs|
  {
    if recs == [] {
      assert (recs + [rec])[1..] == [];
      assert step(st, rec).Ok? ==> StepAll(step(st, rec).value, [], step) == step(st, rec);
    } else {
      assert (recs + [rec])[1..] == recs[1..] + [rec];
      if step(st, recs[0]).Ok? {
        LastStep(step(st, recs[0]).value, recs[1..], rec, step);
      }
    }
  }

  /* ---- Requests ---- */

  /** Records that a request may have once. */
  predicate Twin(a: Record, b: Record) {
    || (a.NextProtocol? && b.NextProtocol?) || (a.AeadAlgorithm? && b.AeadAlgorithm?)
    || (a.FixedKeyRequest? && b.FixedKeyRequest?) || (a.Authentication? && b.Authentication?)
    || (a.SupportedAlgorithmList? && b.SupportedAlgorithmList?)
    || (a.SupportedNextProtocolList? && b.SupportedNextProtocolList?)
  }

  /** Records that a request may not have. */
  predicate Barred(rec: Record) {
    rec.ErrorRecord? || rec.WarningRecord? || rec.NewCookie? || (rec.Unknown? && rec.critical)
  }

  predicate Acceptable(recs: seq<Record>) {
    && (forall i :: 0 <= i < |recs| ==> !Barred(recs[i]))
    && (forall i, j :: 0 <= i < j < |recs| ==> !Twin(recs[i], recs[j]))
  }

  function DeniedNames(recs: seq<Record>): seq<Bytes> {
    if recs == [] then []
    else
      var last := recs[|recs| - 1];
      DeniedNames(recs[..|recs| - 1]) + if last.NtpServerDeny? then [last.denied] else []
  }

  predicate WantsProtocols(recs: seq<Record>) {
    exists i :: 0 <= i < |recs| && recs[i].SupportedNextProtocolList?
  }

  predicate WantsAlgorithms(recs: seq<Record>) {
    exists i :: 0 <= i < |recs| && recs[i].SupportedAlgorithmList?
  }

  ghost predicate SaysProtocols(o: Option<seq<U16>>, recs: seq<Record>) {
    forall xs :: o == Some(xs) <==> NextProtocol(xs) in recs
  }

  ghost predicate SaysAlgorithms(o: Option<seq<U16>>, recs: seq<Record>) {
    forall xs :: o == Some(xs) <==> AeadAlgorithm(xs) in recs
  }

  ghost predicate SaysAuthentication(o: Option<Bytes>, recs: seq<Record>) {
    forall key :: o == Some(key) <==> Authentication(key) in recs
  }

  ghost predicate SaysKeys(o: Option<(Bytes, Bytes)>, recs: seq<Record>) {
    forall c2s, s2c :: o == Some((c2s, s2c)) <==> FixedKeyRequest(c2s, s2c) in recs
  }

  /** The state holds what the records say. */
  ghost predicate Holds(st: RequestState, recs: seq<Record>) {
    && SaysProtocols(st.protocols, recs) && SaysAlgorithms(st.algorithms, recs)
    && SaysAuthentication(st.authentication, recs) && SaysKeys(st.keys, recs)
    && (st.wantsProtocols <==> WantsProtocols(recs)) && (st.wantsAlgorithms <==> WantsAlgorithms(recs))
    && (st.keepAlive <==> KeepAlive in recs) && st.denied == DeniedNames(recs)
  }

  lemma SaysMore(st: RequestState, recs: seq<Record>, rec: Record)
    requires Holds(st, recs) && !HasTwin(recs, rec)
    ensures SaysProtocols(if rec.NextProtocol? then Some(rec.protocols) else st.protocols, recs + [rec])
    ensures SaysAlgorithms(if rec.AeadAlgorithm? then Some(rec.algorithms) else st.algorithms, recs + [rec])
  {
    TwinMore(st, recs, rec);
    assert forall x :: x in recs + [rec] <==> x in recs || x == rec;
  }

  lemma SaysMoreKeys(st: RequestState, recs: seq<Record>, rec: Record)
    requires Holds(st, recs) && !HasTwin(recs, rec)
    ensures SaysAuthentication(if rec.Authentication? then Some(rec.key) else st.authentication, recs + [rec])
    ensures SaysKeys(if rec.FixedKeyRequest? then Some((rec.c2s, rec.s2c)) else st.keys, recs + [rec])
  {
    TwinMore(st, recs, rec);
    assert forall x :: x in recs + [rec] <==> x in recs || x == rec;
  }

  predicate HasTwin(recs: seq<Record>, rec: Record) {
    exists i :: 0 <= i < |recs| && Twin(recs[i], rec)
  }

  lemma AcceptableMore(recs: seq<Record>, rec: Record)
    ensures Acceptable(recs + [rec]) <==> Acceptable(recs) && !Barred(rec) && !HasTwin(recs, rec)
  {
    var all := recs + [rec];
    assert forall i :: 0 <= i < |recs| ==> all[i] == recs[i];
    if Acceptable(all) {
      assert all[|recs|] == rec;
      forall i | 0 <= i < |recs| ensures !Twin(recs[i], rec) && !Barred(recs[i]) {
        assert !Twin(all[i], all[|recs|]);
      }
      forall i, j | 0 <= i < j < |recs| ensures !Twin(recs[i], recs[j]) {
        assert !Twin(all[i], all[j]);
      }
    }
  }

  /** What a record adds. */
  function With(st: RequestState, rec: Record): RequestState {
    RequestState(
      if rec.NextProtocol? then Some(rec.protocols) else st.protocols,
      if rec.AeadAlgorithm? then Some(rec.algorithms) else st.algorithms,
      if rec.Authentication? then Some(rec.key) else st.authentication,
      if rec.NtpServerDeny? then st.denied + [rec.denied] else st.denied,
      st.wantsProtocols || rec.SupportedNextProtocolList?,
      st.wantsAlgorithms || rec.SupportedAlgorithmList?,
      st.keepAlive || rec.KeepAlive?,
      if rec.FixedKeyRequest? then Some((rec.c2s, rec.s2c)) else st.keys)
  }

  lemma HoldsWith(st: RequestState, recs: seq<Record>, rec: Record)
    requires Holds(st, recs) && !HasTwin(recs, rec)
    ensures Holds(With(st, rec), recs + [rec])
  {
    hide SaysProtocols, SaysAlgorithms, SaysAuthentication, SaysKeys, HasTwin, WantsProtocols, WantsAlgorithms, DeniedNames;
    WantsMore(recs, rec);
    RestMore(recs, rec);
    SaysMore(st, recs, rec);
    SaysMoreKeys(st, recs, rec);
  }

  lemma HoldsMore(st: RequestState, recs: seq<Record>, rec: Record)
    requires Holds(st, recs) && !rec.EndOfMessage?
    ensures RequestStep(st, rec).Ok? <==> !Barred(rec) && !HasTwin(recs, rec)
    ensures RequestStep(st, rec).Ok? ==> Holds(RequestStep(st, rec).value, recs + [rec])
    ensures RequestStep(st, rec).Err? ==>
              RequestStep(st, rec).error == if rec.Unknown? then UnrecognizedCriticalRecord else Invalid
  {
    hide Holds, HasTwin;
    TwinMore(st, recs, rec);
    if RequestStep(st, rec).Ok? {
      HoldsWith(st, recs, rec);
      assert RequestStep(st, rec).value == With(st, rec);
    }
  }

  lemma RestMore(recs: seq<Record>, rec: Record)
    ensures KeepAlive in recs + [rec] <==> KeepAlive in recs || rec.KeepAlive?
    ensures DeniedNames(recs + [rec]) == if rec.NtpServerDeny? then DeniedNames(recs) + [rec.denied] else DeniedNames(recs)
  {
    var all := recs + [rec];
    assert all[..|all| - 1] == recs && all[|all| - 1] == rec;
  }

  lemma WantsMore(recs: seq<Record>, rec: Record)
    ensures WantsProtocols(recs + [rec]) <==> WantsProtocols(recs) || rec.SupportedNextProtocolList?
    ensures WantsAlgorithms(recs + [rec]) <==> WantsAlgorithms(recs) || rec.SupportedAlgorithmList?
  {
    var all := recs + [rec];
    assert all[|recs|] == rec && forall i :: 0 <= i < |recs| ==> all[i] == recs[i];
  }

  lemma TwinMore(st: RequestState, recs: seq<Record>, rec: Record)
    requires Holds(st, recs)
    ensures HasTwin(recs, rec) <==>
            match rec
            case NextProtocol(_) => st.protocols.Some?
            case AeadAlgorithm(_) => st.algorithms.Some?
            case FixedKeyRequest(_, _) => st.keys.Some?
            case Authentication(_) => st.authentication.Some?
            case SupportedAlgorithmList(_) => st.wantsAlgorithms
            case SupportedNextProtocolList(_) => st.wantsProtocols
            case _ => false
  {
    if HasTwin(recs, rec) {
      var i :| 0 <= i < |recs| && Twin(recs[i], rec);
      assert recs[i] in recs;
    }
    match rec
    case NextProtocol(_) => if st.protocols.Some? { Present(recs, NextProtocol(st.protocols.value), rec); }
    case AeadAlgorithm(_) => if st.algorithms.Some? { Present(recs, AeadAlgorithm(st.algorithms.value), rec); }
    case FixedKeyRequest(_, _) => if st.keys.Some? { Present(recs, FixedKeyRequest(st.keys.value.0, st.keys.value.1), rec); }
    case Authentication(_) => if st.authentication.Some? { Present(recs, Authentication(st.authentication.value), rec); }
    case _ =>
  }

  lemma Present(recs: seq<Record>, x: Record, rec: Record)
    requires x in recs && Twin(x, rec)
    ensures HasTwin(recs, rec)
  {
    var i :| 0 <= i < |recs| && recs[i] == x;
    assert Twin(recs[i], rec);
  }

  /** Exactly the acceptable runs of records are accepted. */
  lemma {:induction false} RequestFoldIff(recs: seq<Record>)
    requires forall i :: 0 <= i < |recs| ==> !recs[i].EndOfMessage?
    ensures var r := StepAll(EMPTY_REQUEST, recs, RequestStep);
            (r.Ok? <==> Acceptable(recs)) && (r.Ok? ==> Holds(r.value, recs))
  {
    hide RequestStep, Holds, Acceptable, Barred;
    if recs == [] {
      NothingHeld();
    } else {
      var init, last := recs[..|recs| - 1], recs[|recs| - 1];
      assert recs == init + [last];
      RequestFoldIff(init);
      LastStep(EMPTY_REQUEST, init, last, RequestStep);
      AcceptableMore(init, last);
      var r := StepAll(EMPTY_REQUEST, init, RequestStep);
      if r.Ok? {
        HoldsMore(r.value, init, last);
      }
    }
  }

  lemma NothingHeld()
    ensures Holds(EMPTY_REQUEST, []) && Acceptable([])
  {
  }

  /** The key sizes that a request may have are those of the algorithms that cookies are made for. */
  lemma KeySizeAgrees(id: U16)
    ensures var a := K.AlgorithmFrom(id);
            KeySize(id) == if a.UnknownAlgorithm? then None else Some(K.KeyWidth(a))
  {
  }

  /** What a request says, by its records. */
  ghost predicate Means(recs: seq<Record>, r: Request) {
    match r
    case KeyExchange(algorithms, protocols, denied) =>
      && NextProtocol(protocols) in recs && AeadAlgorithm(algorithms) in recs && denied == DeniedNames(recs)
      && !WantsProtocols(recs) && !WantsAlgorithms(recs) && (forall c2s, s2c :: FixedKeyRequest(c2s, s2c) !in recs)
    case FixedKey(authentication, c2s, s2c, algorithm, protocol, keepAlive) =>
      && Authentication(authentication) in recs && FixedKeyRequest(c2s, s2c) in recs
      && NextProtocol([protocol]) in recs && AeadAlgorithm([algorithm]) in recs
      && !WantsProtocols(recs) && !WantsAlgorithms(recs)
      && KeySize(algorithm) == Some(|c2s|) && |c2s| == |s2c| && (keepAlive <==> KeepAlive in recs)
    case Support(authentication, wantsProtocols, wantsAlgorithms, keepAlive) =>
      && Authentication(authentication) in recs && (wantsProtocols || wantsAlgorithms)
      && (wantsProtocols <==> WantsProtocols(recs)) && (wantsAlgorithms <==> WantsAlgorithms(recs))
      && (keepAlive <==> KeepAlive in recs)
      && (forall xs :: NextProtocol(xs) !in recs) && (forall xs :: AeadAlgorithm(xs) !in recs)
      && (forall c2s, s2c :: FixedKeyRequest(c2s, s2c) !in recs)
  }

  lemma FromRecords(st: RequestState, recs: seq<Record>, r: Request)
    requires Holds(st, recs)
    ensures RequestFrom(st) == Ok(r) <==> Means(recs, r)
  {
    SaidPresent(st, recs);
    match r
    case KeyExchange(_, _, _) => FromKeyExchange(st, recs, r);
    case FixedKey(_, _, _, _, _, _) => FromFixedKey(st, recs, r);
    case Support(_, _, _, _) => FromSupport(st, recs, r);
  }

  lemma SaidPresent(st: RequestState, recs: seq<Record>)
    requires Holds(st, recs)
    ensures st.protocols.None? <==> forall xs :: NextProtocol(xs) !in recs
    ensures st.algorithms.None? <==> forall xs :: AeadAlgorithm(xs) !in recs
    ensures st.keys.None? <==> forall c2s, s2c :: FixedKeyRequest(c2s, s2c) !in recs
  {
    assert st.protocols.Some? ==> NextProtocol(st.protocols.value) in recs;
    assert st.algorithms.Some? ==> AeadAlgorithm(st.algorithms.value) in recs;
    if st.keys.Some? {
      var (c2s, s2c) := st.keys.value;
      assert FixedKeyRequest(c2s, s2c) in recs;
    }
  }

  lemma FromKeyExchange(st: RequestState, recs: seq<Record>, r: Request)
    requires Holds(st, recs) && r.KeyExchange?
    ensures RequestFrom(st) == Ok(r) <==> Means(recs, r)
  {
    hide WantsProtocols, WantsAlgorithms, DeniedNames, KeySize;
    SaidPresent(st, recs);
  }

  lemma FromFixedKey(st: RequestState, recs: seq<Record>, r: Request)
    requires Holds(st, recs) && r.FixedKey?
    ensures RequestFrom(st) == Ok(r) <==> Means(recs, r)
  {
    hide WantsProtocols, WantsAlgorithms, DeniedNames, KeySize;
    SaidPresent(st, recs);
    if Means(recs, r) {
      assert st.keys == Some((r.c2s, r.s2c)) && st.protocols == Some([r.protocol]) && st.algorithms == Some([r.algorithm]);
      assert st.authentication == Some(r.authentication);
    }
    if RequestFrom(st) == Ok(r) {
      assert st.protocols.value == [r.protocol] && st.algorithms.value == [r.algorithm];
      assert st.protocols == Some([r.protocol]) && st.algorithms == Some([r.algorithm]) && st.keys == Some((r.c2s, r.s2c));
    }
  }

  lemma FromSupport(st: RequestState, recs: seq<Record>, r: Request)
    requires Holds(st, recs) && r.Support?
    ensures RequestFrom(st) == Ok(r) <==> Means(recs, r)
  {
    hide WantsProtocols, WantsAlgorithms, DeniedNames, KeySize;
    SaidPresent(st, recs);
  }

  /**
   Bytes are read as a request exactly when among the first 4096 there is a whole message whose records are
   acceptable and mean that request.
   */
  lemma RequestMeaning(input: Bytes, text: Text, r: Request)
    ensures var recs := RecordsOf(Limited(input), text);
            ParseRequest(input, text) == Ok(r) <==> recs.Some? && Acceptable(recs.value) && Means(recs.value, r)
  {
    hide RequestStep, RequestFrom, Holds, Acceptable, Means, ReadMessage, RecordsOf, StepAll;
    ReadByRecords(Limited(input), EMPTY_REQUEST, RequestStep, text);
    var recs := RecordsOf(Limited(input), text);
    if recs.Some? {
      RequestFoldIff(recs.value);
      var st := StepAll(EMPTY_REQUEST, recs.value, RequestStep);
      if st.Ok? {
        FromRecords(st.value, recs.value, r);
      }
    }
  }

  /* ---- Responses ---- */

  /** Records that a response may have once. */
  predicate AnswerTwin(a: Record, b: Record) {
    || (a.NextProtocol? && b.NextProtocol?) || (a.AeadAlgorithm? && b.AeadAlgorithm?)
    || (a.Server? && b.Server?) || (a.Port? && b.Port?)
  }

  /** Records that a response may not have: errors and warnings, what only requests have, what is critical and
      unknown, and a choice of other than one protocol or algorithm. */
  predicate AnswerBarred(rec: Record) {
    match rec
    case NextProtocol(xs) => |xs| != 1
    case AeadAlgorithm(xs) => |xs| != 1
    case Unknown(_, critical, _) => critical
    case ErrorRecord(_) => true
    case WarningRecord(_) => true
    case NtpServerDeny(_) => true
    case FixedKeyRequest(_, _) => true
    case SupportedAlgorithmList(_) => true
    case SupportedNextProtocolList(_) => true
    case _ => false
  }

  predicate AnswerAcceptable(recs: seq<Record>) {
    && (forall i :: 0 <= i < |recs| ==> !AnswerBarred(recs[i]))
    && (forall i, j :: 0 <= i < j < |recs| ==> !AnswerTwin(recs[i], recs[j]))
  }

  predicate HasAnswerTwin(recs: seq<Record>, rec: Record) {
    exists i :: 0 <= i < |recs| && AnswerTwin(recs[i], rec)
  }

  /** All cookies, in order. */
  function NewCookies(recs: seq<Record>): seq<Bytes> {
    if recs == [] then []
    else
      var last := recs[|recs| - 1];
      NewCookies(recs[..|recs| - 1]) + if last.NewCookie? then [last.cookie] else []
  }

  function FirstEight(cs: seq<Bytes>): seq<Bytes> {
    cs[..Min(|cs|, DEFAULT_NUMBER_OF_COOKIES)]
  }

  ghost predicate SaysProtocol(o: Option<U16>, recs: seq<Record>) {
    forall x: U16 :: o == Some(x) <==> NextProtocol([x]) in recs
  }

  ghost predicate SaysAlgorithm(o: Option<U16>, recs: seq<Record>) {
    forall x: U16 :: o == Some(x) <==> AeadAlgorithm([x]) in recs
  }

  ghost predicate SaysServer(o: Option<Bytes>, recs: seq<Record>) {
    forall name :: o == Some(name) <==> Server(name) in recs
  }

  ghost predicate SaysPort(o: Option<U16>, recs: seq<Record>) {
    forall p: U16 :: o == Some(p) <==> Port(p) in recs
  }

  ghost predicate AnswerHolds(st: ResponseState, recs: seq<Record>) {
    && SaysProtocol(st.protocol, recs) && SaysAlgorithm(st.algorithm, recs) && SaysServer(st.server, recs) && SaysPort(st.port, recs)
    && (st.keepAlive <==> KeepAlive in recs) && st.cookies == FirstEight(NewCookies(recs))
  }

  function AnswerWith(st: ResponseState, rec: Record): ResponseState {
    ResponseState(
      if rec.NextProtocol? && |rec.protocols| == 1 then Some(rec.protocols[0]) else st.protocol,
      if rec.AeadAlgorithm? && |rec.algorithms| == 1 then Some(rec.algorithms[0]) else st.algorithm,
      if rec.NewCookie? && |st.cookies| < DEFAULT_NUMBER_OF_COOKIES then st.cookies + [rec.cookie] else st.cookies,
      if rec.Server? then Some(rec.name) else st.server,
      if rec.Port? then Some(rec.port) else st.port,
      st.keepAlive || rec.KeepAlive?)
  }

  lemma AnswerAcceptableMore(recs: seq<Record>, rec: Record)
    ensures AnswerAcceptable(recs + [rec]) <==> AnswerAcceptable(recs) && !AnswerBarred(rec) && !HasAnswerTwin(recs, rec)
  {
    var all := recs + [rec];
    assert forall i :: 0 <= i < |recs| ==> all[i] == recs[i];
    if AnswerAcceptable(all) {
      assert all[|recs|] == rec;
      forall i | 0 <= i < |recs| ensures !AnswerTwin(recs[i], rec) && !AnswerBarred(recs[i]) {
        assert !AnswerTwin(all[i], all[|recs|]);
      }
      forall i, j | 0 <= i < j < |recs| ensures !AnswerTwin(recs[i], recs[j]) {
        assert !AnswerTwin(all[i], all[j]);
      }
    }
  }

  lemma AnswerPresent(recs: seq<Record>, x: Record, rec: Record)
    requires x in recs && AnswerTwin(x, rec)
    ensures HasAnswerTwin(recs, rec)
  {
    var i :| 0 <= i < |recs| && recs[i] == x;
    assert AnswerTwin(recs[i], rec);
  }

  lemma AnswerTwinMore(st: ResponseState, recs: seq<Record>, rec: Record)
    requires AnswerHolds(st, recs) && AnswerAcceptable(recs)
    ensures HasAnswerTwin(recs, rec) <==>
            match rec
            case NextProtocol(_) => st.protocol.Some?
            case AeadAlgorithm(_) => st.algorithm.Some?
            case Server(_) => st.server.Some?
            case Port(_) => st.port.Some?
            case _ => false
  {
    if HasAnswerTwin(recs, rec) {
      var i :| 0 <= i < |recs| && AnswerTwin(recs[i], rec);
      assert recs[i] in recs && !AnswerBarred(recs[i]);
      match recs[i]
      case NextProtocol(xs) => assert xs == [xs[0]];
      case AeadAlgorithm(xs) => assert xs == [xs[0]];
      case _ =>
    }
    match rec
    case NextProtocol(_) => if st.protocol.Some? { AnswerPresent(recs, NextProtocol([st.protocol.value]), rec); }
    case AeadAlgorithm(_) => if st.algorithm.Some? { AnswerPresent(recs, AeadAlgorithm([st.algorithm.value]), rec); }
    case Server(_) => if st.server.Some? { AnswerPresent(recs, Server(st.server.value), rec); }
    case Port(_) => if st.port.Some? { AnswerPresent(recs, Port(st.port.value), rec); }
    case _ =>
  }

  lemma AnswerSaysChoices(st: ResponseState, recs: seq<Record>, rec: Record)
    requires AnswerHolds(st, recs) && AnswerAcceptable(recs) && !AnswerBarred(rec) && !HasAnswerTwin(recs, rec)
    ensures SaysProtocol(AnswerWith(st, rec).protocol, recs + [rec]) && SaysAlgorithm(AnswerWith(st, rec).algorithm, recs + [rec])
  {
    hide AnswerAcceptable;
    AnswerTwinMore(st, recs, rec);
    assert forall x :: x in recs + [rec] <==> x in recs || x == rec;
    match rec
    case NextProtocol(xs) => assert xs == [xs[0]];
    case AeadAlgorithm(xs) => assert xs == [xs[0]];
    case _ =>
  }

  lemma AnswerSaysPlaces(st: ResponseState, recs: seq<Record>, rec: Record)
    requires AnswerHolds(st, recs) && AnswerAcceptable(recs) && !HasAnswerTwin(recs, rec)
    ensures SaysServer(AnswerWith(st, rec).server, recs + [rec]) && SaysPort(AnswerWith(st, rec).port, recs + [rec])
  {
    hide AnswerAcceptable;
    AnswerTwinMore(st, recs, rec);
    assert forall x :: x in recs + [rec] <==> x in recs || x == rec;
  }

  lemma AnswerSaysCookies(st: ResponseState, recs: seq<Record>, rec: Record)
    requires st.cookies == FirstEight(NewCookies(recs))
    ensures AnswerWith(st, rec).cookies == FirstEight(NewCookies(recs + [rec]))
  {
    var all := recs + [rec];
    assert all[..|all| - 1] == recs && all[|all| - 1] == rec;
  }

  lemma AnswerHoldsWith(st: ResponseState, recs: seq<Record>, rec: Record)
    requires AnswerHolds(st, recs) && AnswerAcceptable(recs) && !AnswerBarred(rec) && !HasAnswerTwin(recs, rec)
    ensures AnswerHolds(AnswerWith(st, rec), recs + [rec])
  {
    hide SaysProtocol, SaysAlgorithm, SaysServer, SaysPort, AnswerAcceptable, HasAnswerTwin, NewCookies, FirstEight, AnswerBarred;
    RestMore(recs, rec);
    AnswerSaysChoices(st, recs, rec);
    AnswerSaysPlaces(st, recs, rec);
    AnswerSaysCookies(st, recs, rec);
  }

  /** The error that a record is refused with. */
  function AnswerError(rec: Record, twin: bool): NtsError {
    if twin then Invalid
    else
      match rec
      case NextProtocol(xs) => if xs == [] then NoOverlappingProtocol else Invalid
      case AeadAlgorithm(xs) => if xs == [] then NoOverlappingAlgorithm else Invalid
      case ErrorRecord(code) => PeerError(code)
      case WarningRecord(code) => UnknownWarning(code)
      case Unknown(_, _, _) => UnrecognizedCriticalRecord
      case _ => Invalid
  }

  lemma AnswerHoldsMore(st: ResponseState, recs: seq<Record>, rec: Record)
    requires AnswerHolds(st, recs) && AnswerAcceptable(recs) && !rec.EndOfMessage?
    ensures ResponseStep(st, rec).Ok? <==> !AnswerBarred(rec) && !HasAnswerTwin(recs, rec)
    ensures ResponseStep(st, rec).Ok? ==> AnswerHolds(ResponseStep(st, rec).value, recs + [rec])
    ensures ResponseStep(st, rec).Err? ==> ResponseStep(st, rec).error == AnswerError(rec, HasAnswerTwin(recs, rec))
  {
    hide AnswerHolds, AnswerAcceptable, HasAnswerTwin;
    AnswerTwinMore(st, recs, rec);
    if ResponseStep(st, rec).Ok? {
      AnswerHoldsWith(st, recs, rec);
      assert ResponseStep(st, rec).value == AnswerWith(st, rec);
    }
  }

  lemma {:induction false} ResponseFoldIff(recs: seq<Record>)
    requires forall i :: 0 <= i < |recs| ==> !recs[i].EndOfMessage?
    ensures var r := StepAll(EMPTY_RESPONSE, recs, ResponseStep);
            (r.Ok? <==> AnswerAcceptable(recs)) && (r.Ok? ==> AnswerHolds(r.value, recs))
  {
    hide ResponseStep, AnswerHolds, AnswerAcceptable, AnswerBarred;
    if recs == [] {
      NothingAnswered();
    } else {
      var init, last := recs[..|recs| - 1], recs[|recs| - 1];
      assert recs == init + [last];
      ResponseFoldIff(init);
      LastStep(EMPTY_RESPONSE, init, last, ResponseStep);
      AnswerAcceptableMore(init, last);
      var r := StepAll(EMPTY_RESPONSE, init, ResponseStep);
      if r.Ok? {
        AnswerHoldsMore(r.value, init, last);
      }
    }
  }

  lemma NothingAnswered()
    ensures AnswerHolds(EMPTY_RESPONSE, []) && AnswerAcceptable([])
  {
  }

  /** What a response says, by its records: one protocol, one algorithm, and the first eight cookies. */
  ghost predicate AnswerMeans(recs: seq<Record>, r: Response) {
    && NextProtocol([r.protocol]) in recs && AeadAlgorithm([r.algorithm]) in recs
    && SaysServer(r.server, recs) && SaysPort(r.port, recs)
    && (r.keepAlive <==> KeepAlive in recs) && r.cookies == FirstEight(NewCookies(recs))
  }

  lemma AnswerFromRecords(st: ResponseState, recs: seq<Record>, r: Response)
    requires AnswerHolds(st, recs)
    ensures ResponseFrom(st) == Ok(r) <==> AnswerMeans(recs, r)
  {
    hide NewCookies, FirstEight;
    if AnswerMeans(recs, r) {
      SameServer(st.server, r.server, recs);
      SamePort(st.port, r.port, recs);
    }
  }

  lemma SameServer(a: Option<Bytes>, b: Option<Bytes>, recs: seq<Record>)
    requires SaysServer(a, recs) && SaysServer(b, recs)
    ensures a == b
  {
    if a.Some? {
      assert Server(a.value) in recs;
    }
  }

  lemma SamePort(a: Option<U16>, b: Option<U16>, recs: seq<Record>)
    requires SaysPort(a, recs) && SaysPort(b, recs)
    ensures a == b
  {
    if a.Some? {
      assert Port(a.value) in recs;
    }
  }

  /** As for requests. */
  lemma ResponseMeaning(input: Bytes, text: Text, r: Response)
    ensures var recs := RecordsOf(Limited(input), text);
            ParseResponse(input, text) == Ok(r) <==> recs.Some? && AnswerAcceptable(recs.value) && AnswerMeans(recs.value, r)
  {
    hide ResponseStep, ResponseFrom, AnswerHolds, AnswerAcceptable, AnswerMeans, ReadMessage, RecordsOf, StepAll;
    ReadByRecords(Limited(input), EMPTY_RESPONSE, ResponseStep, text);
    var recs := RecordsOf(Limited(input), text);
    if recs.Some? {
      ResponseFoldIff(recs.value);
      var st := StepAll(EMPTY_RESPONSE, recs.value, ResponseStep);
      if st.Ok? {
        AnswerFromRecords(st.value, recs.value, r);
      }
    }
  }
}
