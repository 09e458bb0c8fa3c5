/** The local capability report of lib/opensslinfo.js: the installed
    openssl's version, which protocol methods it can negotiate with a
    reference host, and which catalog ciphers it lists. */
module OpenSSLInfo {
  import opened Promises
  import opened Text
  import opened Reports
  import opened Methods
  import opened Ciphers

  /** A `{supported, unsupported}` pair of name lists. */
  datatype NameSplit = NameSplit(supported: seq<string>, unsupported: seq<string>)

  /** The report object: created by the version stage, then given its
      protocol split and its cipher split by the two later stages. */
  class OpenSSLData {
    const version: string
    var protocols: Option<NameSplit>
    var ciphers: Option<NameSplit>

    constructor (version: string)
      ensures this.version == version && protocols.None? && ciphers.None?
    {
      this.version := version;
      protocols := None;
      ciphers := None;
    }
  }

  /** getOpenSSLVersion: an exec error rejects; otherwise a new report holds
      the command's output with surrounding white space trimmed. */
  method GetOpenSSLVersion(reply: ExecReply) returns (data: OpenSSLData?, rejected: Option<string>)
    ensures reply.err.Some? ==> data == null && rejected == reply.err
    ensures reply.err.None? ==>
      && rejected.None? && data != null && fresh(data)
      && data.version == Trim(reply.output) && data.protocols.None? && data.ciphers.None?
  {
    if reply.err.Some? {
      return null, reply.err;
    }
    data := new OpenSSLData(Trim(reply.output));
    rejected := None;
  }

  /** The common names of the results, in order. */
  function NamesOf(results: seq<ProtocolOutcome>): seq<string>
  {
    if results == [] then [] else NamesOf(results[..|results| - 1]) + [results[|results| - 1].name]
  }

  /** The split the protocol stage builds: each result's name, in order,
      under supported when the method is enabled and unsupported otherwise. */
  function PartitionNames(results: seq<ProtocolOutcome>): NameSplit
  {
    if results == [] then NameSplit([], [])
    else
      var before := PartitionNames(results[..|results| - 1]);
      var item := results[|results| - 1];
      if item.enabled then before.(supported := before.supported + [item.name])
      else before.(unsupported := before.unsupported + [item.name])
  }

  /** Every result's name goes into exactly one of the two lists: the lists'
      sizes and multiplicities add up to the results'. */
  lemma {:induction false} PartitionNamesSplits(results: seq<ProtocolOutcome>)
    ensures var split := PartitionNames(results);
      && |split.supported| + |split.unsupported| == |results|
      && multiset(split.supported) + multiset(split.unsupported) == multiset(NamesOf(results))
  {
    if results != [] {
      PartitionNamesSplits(results[..|results| - 1]);
    }
  }

  /** Each list keeps result order. */
  lemma {:induction false} PartitionNamesKeepsOrder(results: seq<ProtocolOutcome>)
    ensures IsSubsequence(PartitionNames(results).supported, NamesOf(results))
    ensures IsSubsequence(PartitionNames(results).unsupported, NamesOf(results))
  {
    if results != [] {
      var init, item := results[..|results| - 1], results[|results| - 1];
      PartitionNamesKeepsOrder(init);
      var before := PartitionNames(init);
      if item.enabled {
        SubsequenceAppendBoth(before.supported, NamesOf(init), item.name);
        SubsequenceExtend(before.unsupported, NamesOf(init), item.name);
      } else {
        SubsequenceExtend(before.supported, NamesOf(init), item.name);
        SubsequenceAppendBoth(before.unsupported, NamesOf(init), item.name);
      }
    }
  }

  /** A name is supported exactly when an enabled result carries it, and
      unsupported exactly when a disabled one does. */
  lemma {:induction false} PartitionNamesMembers(results: seq<ProtocolOutcome>, name: string)
    ensures name in PartitionNames(results).supported
      <==> exists i :: 0 <= i < |results| && results[i].enabled && results[i].name == name
    ensures name in PartitionNames(results).unsupported
      <==> exists i :: 0 <= i < |results| && !results[i].enabled && results[i].name == name
  {
    if results != [] {
      var init := results[..|results| - 1];
      PartitionNamesMembers(init, name);
      if exists i :: 0 <= i < |results| && results[i].name == name {
        var i :| 0 <= i < |results| && results[i].name == name;
        if i < |init| {
          assert init[i] == results[i];
        }
      }
      forall i | 0 <= i < |init| ensures init[i] == results[i] { }
    }
  }

  /** The continuation of getOpenSSLProtocols' `Q.all`: a fresh split,
      filled result by result. */
  method RecordProtocols(data: OpenSSLData, results: seq<ProtocolOutcome>)
    modifies data`protocols
    ensures data.protocols == Some(PartitionNames(results))
  {
    data.protocols := Some(NameSplit([], []));
    var i := 0;
    while i < |results|
      invariant 0 <= i <= |results|
      invariant data.protocols == Some(PartitionNames(results[..i]))
    {
      var item := results[i];
      assert results[..i + 1][..i] == results[..i];
      var split := data.protocols.value;
      if item.enabled {
        data.protocols := Some(split.(supported := split.supported + [item.name]));
      } else {
        data.protocols := Some(split.(unsupported := split.unsupported + [item.name]));
      }
      i := i + 1;
    }
    assert results[..i] == results;
  }

  /** getOpenSSLProtocols: probe every method against the reference host;
      when all probes resolve, give the report a fresh split filled result
      by result; when one rejects, leave the report alone and pass the
      rejection on. */
  method GetOpenSSLProtocols(data: OpenSSLData, probe: Probe, signals: string -> HandshakeSignal) returns (rejected: Option<string>)
    modifies data`protocols
    ensures var settled := All(ProbeProtocols(probe, signals));
      && (settled.Resolve? ==> rejected.None? && data.protocols == Some(PartitionNames(settled.value)))
      && (settled.Reject? ==> rejected == Some(settled.reason) && data.protocols == old(data.protocols))
  {
    var settled := All(ProbeProtocols(probe, signals));
    if settled.Reject? {
      return Some(settled.reason);
    }
    RecordProtocols(data, settled.value);
    rejected := None;
  }

  /** When no two results share a name, a result's name is supported exactly
      when that result is enabled. */
  lemma SupportedWhenEnabled(results: seq<ProtocolOutcome>, i: nat)
    requires i < |results|
    requires forall j, k :: 0 <= j < k < |results| ==> results[j].name != results[k].name
    ensures results[i].name in PartitionNames(results).supported <==> results[i].enabled
  {
    PartitionNamesMembers(results, results[i].name);
    if exists j :: 0 <= j < |results| && results[j].enabled && results[j].name == results[i].name {
      var j :| 0 <= j < |results| && results[j].enabled && results[j].name == results[i].name;
      assert j == i;
    }
  }

  /** The local protocol report names all five methods, each once: a method
      is supported exactly when its handshake with the reference host
      completed. */
  lemma LocalProtocolsCoverTable(probe: Probe, signals: string -> HandshakeSignal)
    ensures var settled := All(ProbeProtocols(probe, signals));
      settled.Resolve? ==>
        var split := PartitionNames(settled.value);
        && |split.supported| + |split.unsupported| == 5
        && forall i :: 0 <= i < 5 ==>
             (AllMethods()[i].commonName in split.supported <==> signals(AllMethods()[i].name).Connected?)
  {
    var settled := All(ProbeProtocols(probe, signals));
    ProtocolResultsInTableOrder(probe, signals);
    if settled.Resolve? {
      var results := settled.value;
      PartitionNamesSplits(results);
      CommonNamesDistinct();
      assert |AllMethods()| == 5;
      assert forall j, k :: 0 <= j < k < |results| ==> results[j].name != results[k].name by {
        forall j, k | 0 <= j < k < |results| ensures results[j].name != results[k].name {
          assert results[j].name == AllMethods()[j].commonName;
          assert results[k].name == AllMethods()[k].commonName;
        }
      }
      forall i | 0 <= i < 5
        ensures AllMethods()[i].commonName in PartitionNames(results).supported
                <==> signals(AllMethods()[i].name).Connected?
      {
        SupportedWhenEnabled(results, i);
      }
    }
  }

  /** The cipher split against a catalog: the trimmed `openssl ciphers`
      output split on ':' as supported, and the catalog ciphers it does not
      list as unsupported. */
  function CipherCatalog(catalog: seq<string>, output: string): (r: NameSplit)
    ensures |r.supported| >= 1
    ensures Join(r.supported, ':') == Trim(output)
    ensures forall k :: 0 <= k < |r.supported| ==> ':' !in r.supported[k]
    ensures forall x :: x in r.unsupported <==> x in catalog && x !in r.supported
    ensures IsSubsequence(r.unsupported, catalog)
  {
    var supported := Split(Trim(output), ':');
    JoinSplit(Trim(output), ':');
    DifferenceKeepsOrder(catalog, supported);
    NameSplit(supported, Difference(catalog, supported))
  }

  /** getOpenSSLCiphers, for the catalog `cipher.cipherSuites()` returns: an
      exec error rejects and leaves the report alone; otherwise the report
      gets the cipher split of the output. */
  method GetOpenSSLCiphers(data: OpenSSLData, catalog: seq<string>, reply: ExecReply) returns (rejected: Option<string>)
    modifies data`ciphers
    ensures reply.err.Some? ==> rejected == reply.err && data.ciphers == old(data.ciphers)
    ensures reply.err.None? ==> rejected.None? && data.ciphers == Some(CipherCatalog(catalog, reply.output))
    ensures data.protocols == old(data.protocols)
  {
    if reply.err.Some? {
      return reply.err;
    }
    data.ciphers := Some(NameSplit([], []));
    var ciphers := Split(Trim(reply.output), ':');
    data.ciphers := Some(data.ciphers.value.(supported := ciphers));
    data.ciphers := Some(data.ciphers.value.(unsupported := Difference(catalog, ciphers)));
    rejected := None;
  }

  /** The three stages in order, for a given cipher catalog: the first stage
      that fails decides the rejection and no report is delivered; otherwise
      the report holds all three results. */
  method CapabilitiesFor(versionReply: ExecReply, probe: Probe, signals: string -> HandshakeSignal, catalog: seq<string>,
                         ciphersReply: ExecReply)
    returns (data: OpenSSLData?, rejected: Option<string>)
    ensures var settled := All(ProbeProtocols(probe, signals));
      && (versionReply.err.Some? ==> data == null && rejected == versionReply.err)
      && (versionReply.err.None? && settled.Reject? ==> data == null && rejected == Some(settled.reason))
      && (versionReply.err.None? && settled.Resolve? && ciphersReply.err.Some? ==>
            data == null && rejected == ciphersReply.err)
      && (versionReply.err.None? && settled.Resolve? && ciphersReply.err.None? ==>
            && rejected.None? && data != null && fresh(data)
            && data.version == Trim(versionReply.output)
            && data.protocols == Some(PartitionNames(settled.value))
            && data.ciphers == Some(CipherCatalog(catalog, ciphersReply.output)))
  {
    ghost var settled := All(ProbeProtocols(probe, signals));
    var report;
    report, rejected := GetOpenSSLVersion(versionReply);
    if rejected.Some? {
      return null, rejected;
    }
    rejected := GetOpenSSLProtocols(report, probe, signals);
    if rejected.Some? {
      return null, rejected;
    }
    assert report.protocols == Some(PartitionNames(settled.value));
    rejected := GetOpenSSLCiphers(report, catalog, ciphersReply);
    if rejected.Some? {
      return null, rejected;
    }
    data := report;
  }

  /** getOpenSSLCapabilities: version, then protocols, then ciphers against
      the cipher catalog. */
  method GetOpenSSLCapabilities(versionReply: ExecReply, probe: Probe, signals: string -> HandshakeSignal, ciphersReply: ExecReply)
    returns (data: OpenSSLData?, rejected: Option<string>)
    ensures var settled := All(ProbeProtocols(probe, signals));
      && (versionReply.err.Some? ==> data == null && rejected == versionReply.err)
      && (versionReply.err.None? && settled.Reject? ==> data == null && rejected == Some(settled.reason))
      && (versionReply.err.None? && settled.Resolve? && ciphersReply.err.Some? ==>
            data == null && rejected == ciphersReply.err)
      && (versionReply.err.None? && settled.Resolve? && ciphersReply.err.None? ==>
            && rejected.None? && data != null && fresh(data)
            && data.version == Trim(versionReply.output)
            && data.protocols == Some(PartitionNames(settled.value))
            && data.ciphers == Some(CipherCatalog(CipherSuites, ciphersReply.output)))
  {
    data, rejected := CapabilitiesFor(versionReply, probe, signals, CipherSuites, ciphersReply);
  }
}
