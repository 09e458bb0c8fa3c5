/** The protocol prober of lib/method.js: the five-entry method table, the
    classification of one pinned-version handshake, and the stage that
    records every method's outcome on the host record. */
module Methods {
  import opened Promises
  import opened Text
  import opened Reports

  /** The `methods` object, as its (key, value) pairs in insertion order.
      No row carries an openssl flag. */
  const MethodTable: seq<(string, Method)> := [
    ("SSLv2_method", Method("SSLv2_method", "SSLv2", None)),
    ("SSLv3_method", Method("SSLv3_method", "SSLv3", None)),
    ("TLSv1_method", Method("TLSv1_method", "TLSv1", None)),
    ("TLSv1_1_method", Method("TLSv1_1_method", "TLSv1.1", None)),
    ("TLSv1_2_method", Method("TLSv1_2_method", "TLSv1.2", None))
  ]

  /** `_.values(methods)`: the rows in table order. */
  function AllMethods(): seq<Method>
  {
    seq(|MethodTable|, i requires 0 <= i < |MethodTable| => MethodTable[i].1)
  }

  function LookupIn(table: seq<(string, Method)>, key: string): Option<Method>
  {
    if table == [] then None
    else if table[0].0 == key then Some(table[0].1)
    else LookupIn(table[1..], key)
  }

  /** `methods[key]`, absent when no row has that key. */
  function Lookup(key: string): Option<Method>
  {
    LookupIn(MethodTable, key)
  }

  /** Every row's key is its method's name. */
  predicate KeysAreNames(table: seq<(string, Method)>)
  {
    forall i :: 0 <= i < |table| ==> table[i].0 == table[i].1.name
  }

  /** The table holds exactly five methods, oldest to newest, each filed
      under its own name and none with an openssl flag. */
  lemma MethodTableShape()
    ensures |AllMethods()| == 5
    ensures AllMethods()[0].name == "SSLv2_method" && AllMethods()[0].commonName == "SSLv2"
    ensures AllMethods()[1].name == "SSLv3_method" && AllMethods()[1].commonName == "SSLv3"
    ensures AllMethods()[2].name == "TLSv1_method" && AllMethods()[2].commonName == "TLSv1"
    ensures AllMethods()[3].name == "TLSv1_1_method" && AllMethods()[3].commonName == "TLSv1.1"
    ensures AllMethods()[4].name == "TLSv1_2_method" && AllMethods()[4].commonName == "TLSv1.2"
    ensures KeysAreNames(MethodTable)
    ensures forall i :: 0 <= i < 5 ==> AllMethods()[i].opensslAbbrev.None?
    ensures forall i, j :: 0 <= i < j < 5 ==> AllMethods()[i].name != AllMethods()[j].name
  {
    assert "SSLv2_method"[4] == '2' && "SSLv3_method"[4] == '3';
    assert "TLSv1_method"[5] == '_' && "TLSv1_1_method"[5] == '_';
    assert "TLSv1_1_method"[6] == '1' && "TLSv1_2_method"[6] == '2';
    assert |"TLSv1_method"| == 12 && |"TLSv1_1_method"| == 14;
  }

  /** No two methods share a common name. */
  lemma CommonNamesDistinct()
    ensures forall i, j :: 0 <= i < j < |AllMethods()| ==> AllMethods()[i].commonName != AllMethods()[j].commonName
  {
    MethodTableShape();
    assert "SSLv2"[4] == '2' && "SSLv3"[4] == '3' && |"TLSv1"| == 5 && |"TLSv1.1"| == 7;
    assert "TLSv1.1"[6] == '1' && "TLSv1.2"[6] == '2';
  }

  lemma {:induction false} LookupInSpec(table: seq<(string, Method)>, key: string)
    requires KeysAreNames(table)
    ensures LookupIn(table, key).Some? <==> exists i :: 0 <= i < |table| && table[i].0 == key
    ensures LookupIn(table, key).Some? ==> LookupIn(table, key).value.name == key
    ensures LookupIn(table, key).Some? ==> exists i :: 0 <= i < |table| && table[i].1 == LookupIn(table, key).value
  {
    if table != [] && table[0].0 != key {
      LookupInSpec(table[1..], key);
      if LookupIn(table, key).Some? {
        var i :| 0 <= i < |table| - 1 && table[1..][i].1 == LookupIn(table, key).value;
        assert table[i + 1].1 == LookupIn(table, key).value;
      }
      if exists i :: 0 <= i < |table| && table[i].0 == key {
        var i :| 0 <= i < |table| && table[i].0 == key;
        assert i != 0 && table[1..][i - 1].0 == key;
      }
    }
  }

  /** Looking a name up in the table finds the method of that name, and
      finds something exactly when some method has that name; the cipher
      stage relies on this. */
  lemma LookupByName(key: string)
    ensures Lookup(key).Some? <==> exists i :: 0 <= i < |AllMethods()| && AllMethods()[i].name == key
    ensures Lookup(key).Some? ==> Lookup(key).value.name == key && Lookup(key).value in AllMethods()
  {
    MethodTableShape();
    LookupInSpec(MethodTable, key);
    if Lookup(key).Some? {
      var i :| 0 <= i < |MethodTable| && MethodTable[i].1 == Lookup(key).value;
      assert AllMethods()[i] == Lookup(key).value;
    }
  }

  /** How one `tls.connect` attempt ends, as the prober observes it. */
  datatype HandshakeSignal =
    | Connected                                            // the secure-connect callback ran
    | SocketError(code: Option<string>, message: string)   // an 'error' event: error.code and error.toString()
    | ConnectThrew(message: string)                        // tls.connect threw; the exception's toString()

  const ConnectionReset := "ECONNRESET"
  const NoCiphersAvailable := "no ciphers available"
  const WrongVersionNumber := "SSL3_GET_RECORD:wrong version number"
  const MethodsDisabled := "methods disabled"

  function LibraryLacksMessage(m: Method): string
  {
    "The installed openssl library does not support \"" + m.commonName + "\""
  }

  function NodeLacksMessage(m: Method): string
  {
    "This version of NodeJS does not support \"" + m.commonName + "\""
  }

  /** The wrong-version test as the source writes it: the comparison with -1
      sits inside the indexOf call, evaluates to true, and indexOf searches
      for that value's text "true"; the index found is truthy unless it is 0. */
  predicate WrongVersionTest(msg: string)
  {
    IndexOf(msg, "true") != 0
  }

  /** The wrong-version test passes for every message except one that starts
      with "true", whether or not it mentions a wrong version number. */
  lemma WrongVersionTestSlip(msg: string)
    ensures WrongVersionTest(msg) <==> !StartsWith(msg, "true")
  {
    IndexOfIsZero(msg, "true");
  }

  /** The decision `_trySSLMethod` makes once the handshake has ended, given
      the verdict of its wrong-version test on the error message. Each path
      makes a single resolve or reject call on the probe's deferred. */
  function ClassifyHandshake(m: Method, signal: HandshakeSignal, versionTest: bool): Settlement<ProtocolOutcome, string>
  {
    match signal
    case Connected =>
      Resolve(ProtocolOutcome(m.name, m.commonName, true, None))
    case SocketError(code, msg) =>
      if code == Some(ConnectionReset) then
        Resolve(ProtocolOutcome(m.name, m.commonName, false, None))
      else if Contains(msg, NoCiphersAvailable) then
        Resolve(ProtocolOutcome(m.name, m.commonName, false, Some(LibraryLacksMessage(m))))
      else if versionTest then
        Resolve(ProtocolOutcome(m.name, m.commonName, false, None))
      else
        Reject(msg)
    case ConnectThrew(msg) =>
      if Contains(msg, MethodsDisabled) then
        Resolve(ProtocolOutcome(m.name, m.commonName, false, Some(NodeLacksMessage(m))))
      else
        Reject(msg)
  }

  /** One probe of `m`, as written: the fate of the probe's deferred. */
  function TrySSLMethod(m: Method, signal: HandshakeSignal): (r: Settlement<ProtocolOutcome, string>)
    ensures r.Resolve? ==> r.value.protocol == m.name && r.value.name == m.commonName
    ensures r.Resolve? && r.value.enabled <==> signal.Connected?
    ensures r.Resolve? && r.value.error.Some? ==>
      r.value.error.value in {LibraryLacksMessage(m), NodeLacksMessage(m)}
    ensures r.Reject? <==>
      || (signal.SocketError? && signal.code != Some(ConnectionReset)
          && !Contains(signal.message, NoCiphersAvailable) && StartsWith(signal.message, "true"))
      || (signal.ConnectThrew? && !Contains(signal.message, MethodsDisabled))
    ensures r.Reject? ==> r.reason == signal.message
    ensures signal.Connected? ==> r == Resolve(ProtocolOutcome(m.name, m.commonName, true, None))
    ensures signal.SocketError? && signal.code == Some(ConnectionReset) ==>
      r == Resolve(ProtocolOutcome(m.name, m.commonName, false, None))
    ensures signal.SocketError? && signal.code != Some(ConnectionReset) && Contains(signal.message, NoCiphersAvailable) ==>
      r == Resolve(ProtocolOutcome(m.name, m.commonName, false, Some(LibraryLacksMessage(m))))
    ensures && signal.SocketError? && signal.code != Some(ConnectionReset)
            && !Contains(signal.message, NoCiphersAvailable) && !StartsWith(signal.message, "true") ==>
      r == Resolve(ProtocolOutcome(m.name, m.commonName, false, None))
    ensures signal.ConnectThrew? && Contains(signal.message, MethodsDisabled) ==>
      r == Resolve(ProtocolOutcome(m.name, m.commonName, false, Some(NodeLacksMessage(m))))
  {
    if signal.Connected? then ClassifyHandshake(m, signal, true)
    else
      WrongVersionTestSlip(signal.message);
      ClassifyHandshake(m, signal, WrongVersionTest(signal.message))
  }

  /** The probe as the source evidently means it: only a message that names a
      wrong version number is read as a disabled method, and every error it
      does not recognise is passed on as a rejection. */
  function TrySSLMethodIntended(m: Method, signal: HandshakeSignal): (r: Settlement<ProtocolOutcome, string>)
    ensures r.Resolve? ==> r.value.protocol == m.name && r.value.name == m.commonName
    ensures r.Resolve? && r.value.enabled <==> signal.Connected?
    ensures r.Resolve? && r.value.error.Some? ==>
      r.value.error.value in {LibraryLacksMessage(m), NodeLacksMessage(m)}
    ensures r.Reject? <==>
      || (signal.SocketError? && signal.code != Some(ConnectionReset)
          && !Contains(signal.message, NoCiphersAvailable) && !Contains(signal.message, WrongVersionNumber))
      || (signal.ConnectThrew? && !Contains(signal.message, MethodsDisabled))
    ensures r.Reject? ==> r.reason == signal.message
    ensures signal.Connected? ==> r == Resolve(ProtocolOutcome(m.name, m.commonName, true, None))
    ensures signal.SocketError? && signal.code == Some(ConnectionReset) ==>
      r == Resolve(ProtocolOutcome(m.name, m.commonName, false, None))
    ensures signal.SocketError? && signal.code != Some(ConnectionReset) && Contains(signal.message, NoCiphersAvailable) ==>
      r == Resolve(ProtocolOutcome(m.name, m.commonName, false, Some(LibraryLacksMessage(m))))
    ensures && signal.SocketError? && signal.code != Some(ConnectionReset)
            && !Contains(signal.message, NoCiphersAvailable) && Contains(signal.message, WrongVersionNumber) ==>
      r == Resolve(ProtocolOutcome(m.name, m.commonName, false, None))
    ensures signal.ConnectThrew? && Contains(signal.message, MethodsDisabled) ==>
      r == Resolve(ProtocolOutcome(m.name, m.commonName, false, Some(NodeLacksMessage(m))))
  {
    ClassifyHandshake(m, signal, !signal.Connected? && Contains(signal.message, WrongVersionNumber))
  }

  /** An error the tool does not recognise, "Error: EPIPE", resolves as a
      disabled method as written, and is passed on as a rejection as meant. */
  lemma WrongVersionSlipWitness()
    ensures var signal := SocketError(None, "Error: EPIPE");
      && TrySSLMethod(AllMethods()[0], signal) == Resolve(ProtocolOutcome("SSLv2_method", "SSLv2", false, None))
      && TrySSLMethodIntended(AllMethods()[0], signal) == Reject("Error: EPIPE")
  {
    var msg := "Error: EPIPE";
    NotContainsLonger(msg, NoCiphersAvailable);
    NotContainsLonger(msg, WrongVersionNumber);
    WrongVersionTestSlip(msg);
    assert !StartsWith(msg, "true") by { assert msg[0] != 't'; }
  }

  /** Which `_trySSLMethod` a probe round runs: the one the program has, or
      the corrected one. */
  datatype Probe = AsWritten | Corrected

  /** One probe of `m` by the chosen `_trySSLMethod`. Both agree on what a
      resolved outcome names and on when it is enabled. */
  function TryProbe(probe: Probe, m: Method, signal: HandshakeSignal): (r: Settlement<ProtocolOutcome, string>)
    ensures r.Resolve? ==> r.value.protocol == m.name && r.value.name == m.commonName
    ensures r.Resolve? && r.value.enabled <==> signal.Connected?
    ensures r.Reject? ==> r.reason == signal.message
  {
    match probe
    case AsWritten => TrySSLMethod(m, signal)
    case Corrected => TrySSLMethodIntended(m, signal)
  }

  /** The socket error "Error: handshake failure" resolves as a disabled
      method as written, and is passed on as a rejection when corrected. */
  lemma HandshakeFailureProbes(m: Method)
    ensures !StartsWith("Error: handshake failure", "true")
    ensures var signal := SocketError(None, "Error: handshake failure");
      && TrySSLMethod(m, signal) == Resolve(ProtocolOutcome(m.name, m.commonName, false, None))
      && TrySSLMethodIntended(m, signal) == Reject("Error: handshake failure")
  {
    var msg := "Error: handshake failure";
    assert !StartsWith(msg, "true") by { assert msg[0] != 't'; }
    NotContainsLonger(msg, WrongVersionNumber);
    forall j ensures !OccursAt(msg, NoCiphersAvailable, j) {
      if 0 <= j <= 4 {
        assert msg[j] != 'n' && NoCiphersAvailable[0] == 'n';
      }
    }
  }

  /** `_.values(methods).map(...)`: one probe per method, in table order; the
      environment says how the handshake for each method name ends. */
  function ProbeProtocols(probe: Probe, signals: string -> HandshakeSignal): seq<Settlement<ProtocolOutcome, string>>
  {
    seq(|AllMethods()|, i requires 0 <= i < |AllMethods()| =>
      TryProbe(probe, AllMethods()[i], signals(AllMethods()[i].name)))
  }

  /** Corrected, a round in which every handshake ends in "Error: handshake
      failure" rejects with that error. */
  lemma HandshakeFailureRound(signals: string -> HandshakeSignal)
    requires forall name :: signals(name) == SocketError(None, "Error: handshake failure")
    ensures forall name :: !StartsWith(signals(name).message, "true")
    ensures All(ProbeProtocols(Corrected, signals)) == Reject("Error: handshake failure")
  {
    var probes := ProbeProtocols(Corrected, signals);
    forall i | 0 <= i < |probes| ensures probes[i] == Reject("Error: handshake failure") {
      HandshakeFailureProbes(AllMethods()[i]);
    }
    HandshakeFailureProbes(AllMethods()[0]);
  }

  /** When every probe resolves, the results are one per method, in table
      order, and a method is enabled exactly when its handshake completed;
      otherwise some probe rejected. */
  lemma ProtocolResultsInTableOrder(probe: Probe, signals: string -> HandshakeSignal)
    ensures var settled := All(ProbeProtocols(probe, signals));
      && (settled.Resolve? ==>
            && |settled.value| == 5
            && forall i :: 0 <= i < 5 ==>
                 && settled.value[i].protocol == AllMethods()[i].name
                 && settled.value[i].name == AllMethods()[i].commonName
                 && (settled.value[i].enabled <==> signals(AllMethods()[i].name).Connected?))
      && (settled.Reject? <==> exists i :: 0 <= i < 5 && ProbeProtocols(probe, signals)[i].Reject?)
  {
    var probes := ProbeProtocols(probe, signals);
    MethodTableShape();
    assert |probes| == 5;
    forall i | 0 <= i < 5 ensures probes[i] == TryProbe(probe, AllMethods()[i], signals(AllMethods()[i].name)) { }
  }

  /** Every protocol a resolved probe round reports names a row of the table,
      so the cipher stage's table lookups all succeed. */
  lemma ProtocolResultsKnown(probe: Probe, signals: string -> HandshakeSignal)
    ensures var settled := All(ProbeProtocols(probe, signals));
      settled.Resolve? ==> forall i :: 0 <= i < |settled.value| ==> Lookup(settled.value[i].protocol).Some?
  {
    var settled := All(ProbeProtocols(probe, signals));
    ProtocolResultsInTableOrder(probe, signals);
    if settled.Resolve? {
      forall i | 0 <= i < |settled.value| ensures Lookup(settled.value[i].protocol).Some? {
        LookupByName(AllMethods()[i].name);
      }
    }
  }

  /** As written, a probe round rejects exactly when some method's handshake
      ends in a socket error that is not a reset, lacks "no ciphers
      available" and starts with "true", or in a thrown error that lacks
      "methods disabled". */
  lemma AsWrittenRoundRejects(signals: string -> HandshakeSignal)
    ensures All(ProbeProtocols(AsWritten, signals)).Reject? <==>
      exists i :: 0 <= i < 5 && SlipRejects(signals(AllMethods()[i].name))
  {
    var probes := ProbeProtocols(AsWritten, signals);
    MethodTableShape();
    forall i | 0 <= i < 5 ensures probes[i].Reject? <==> SlipRejects(signals(AllMethods()[i].name)) {
      assert probes[i] == TrySSLMethod(AllMethods()[i], signals(AllMethods()[i].name));
    }
  }

  /** The signals on which the probe as written rejects. */
  predicate SlipRejects(signal: HandshakeSignal)
  {
    || (signal.SocketError? && signal.code != Some(ConnectionReset)
        && !Contains(signal.message, NoCiphersAvailable) && StartsWith(signal.message, "true"))
    || (signal.ConnectThrew? && !Contains(signal.message, MethodsDisabled))
  }

  /** As written, a host whose every handshake ends in a socket error not
      starting with "true" (a handshake failure, say) gives a resolved round
      with every method disabled. */
  lemma SlipEverywhere(signals: string -> HandshakeSignal)
    requires forall name :: signals(name).SocketError? && !StartsWith(signals(name).message, "true")
    ensures var settled := All(ProbeProtocols(AsWritten, signals));
      settled.Resolve? && forall i :: 0 <= i < |settled.value| ==> !settled.value[i].enabled
  {
    var probes := ProbeProtocols(AsWritten, signals);
    forall i | 0 <= i < |probes| ensures probes[i].Resolve? && !probes[i].value.enabled {
      var m := AllMethods()[i];
      var signal := signals(m.name);
      assert signal.SocketError? && !StartsWith(signal.message, "true");
      assert probes[i] == TrySSLMethod(m, signal);
    }
  }

  /** Corrected, a host that answers every handshake with a
      wrong-version-number socket error gives a resolved round with every
      method disabled. */
  lemma WrongVersionEverywhere(signals: string -> HandshakeSignal)
    requires forall name :: signals(name).SocketError? && Contains(signals(name).message, WrongVersionNumber)
    ensures var settled := All(ProbeProtocols(Corrected, signals));
      settled.Resolve? && forall i :: 0 <= i < |settled.value| ==> !settled.value[i].enabled
  {
    var probes := ProbeProtocols(Corrected, signals);
    forall i | 0 <= i < |probes| ensures probes[i].Resolve? && !probes[i].value.enabled {
      var m := AllMethods()[i];
      var signal := signals(m.name);
      assert signal.SocketError? && Contains(signal.message, WrongVersionNumber);
      assert probes[i] == TrySSLMethodIntended(m, signal);
    }
  }

  /** The continuation of getSSLResults' `Q.all`: reset the host's
      protocol list and push each result in order. */
  method RecordProtocolResults(hostData: HostData, results: seq<ProtocolOutcome>)
    modifies hostData`protocols
    ensures hostData.protocols == results
  {
    hostData.protocols := [];
    var i := 0;
    while i < |results|
      invariant 0 <= i <= |results|
      invariant hostData.protocols == results[..i]
    {
      hostData.protocols := hostData.protocols + [results[i]];
      i := i + 1;
    }
    assert results[..i] == results;
  }

  /** getSSLResults: probe every method; when all probes resolve, reset the
      host's protocol list and append each result in order. When one
      rejects, the host record is left as it was and the rejection is passed on. */
  method GetSSLResults(hostData: HostData, probe: Probe, signals: string -> HandshakeSignal) returns (rejected: Option<string>)
    modifies hostData`protocols
    ensures var settled := All(ProbeProtocols(probe, signals));
      && (settled.Resolve? ==> rejected.None? && hostData.protocols == settled.value)
      && (settled.Reject? ==> rejected == Some(settled.reason) && hostData.protocols == old(hostData.protocols))
  {
    var tasks := ProbeProtocols(probe, signals);
    var settled := All(tasks);
    if settled.Reject? {
      return Some(settled.reason);
    }
    RecordProtocolResults(hostData, settled.value);
    rejected := None;
  }
}
