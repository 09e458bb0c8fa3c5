/** The cipher prober of lib/cipher.js: the canonical cipher catalog, the
    classification of one `openssl s_client` run pinned to a protocol and a
    cipher, and the stage that folds every probe of every enabled protocol
    into the host's cipher matrix. */
module Ciphers {
  import opened Promises
  import opened Text
  import opened Reports
  import opened Methods

  /** The canonical catalog, in the order every matrix list keeps. */
  const CipherSuites: seq<string> := [
    "ECDHE-RSA-AES256-GCM-SHA384", "ECDHE-ECDSA-AES256-GCM-SHA384", "ECDHE-RSA-AES256-SHA384",
    "ECDHE-ECDSA-AES256-SHA384", "ECDHE-RSA-AES256-SHA", "ECDHE-ECDSA-AES256-SHA",
    "SRP-DSS-AES-256-CBC-SHA", "SRP-RSA-AES-256-CBC-SHA", "SRP-AES-256-CBC-SHA",
    "DH-DSS-AES256-GCM-SHA384", "DHE-DSS-AES256-GCM-SHA384", "DH-RSA-AES256-GCM-SHA384",
    "DHE-RSA-AES256-GCM-SHA384", "DHE-RSA-AES256-SHA256", "DHE-DSS-AES256-SHA256",
    "DH-RSA-AES256-SHA256", "DH-DSS-AES256-SHA256", "DHE-RSA-AES256-SHA",
    "DHE-DSS-AES256-SHA", "DH-RSA-AES256-SHA", "DH-DSS-AES256-SHA",
    "DHE-RSA-CAMELLIA256-SHA", "DHE-DSS-CAMELLIA256-SHA", "DH-RSA-CAMELLIA256-SHA",
    "DH-DSS-CAMELLIA256-SHA", "ECDH-RSA-AES256-GCM-SHA384", "ECDH-ECDSA-AES256-GCM-SHA384",
    "ECDH-RSA-AES256-SHA384", "ECDH-ECDSA-AES256-SHA384", "ECDH-RSA-AES256-SHA",
    "ECDH-ECDSA-AES256-SHA", "AES256-GCM-SHA384", "AES256-SHA256",
    "AES256-SHA", "CAMELLIA256-SHA", "PSK-AES256-CBC-SHA",
    "ECDHE-RSA-AES128-GCM-SHA256", "ECDHE-ECDSA-AES128-GCM-SHA256", "ECDHE-RSA-AES128-SHA256",
    "ECDHE-ECDSA-AES128-SHA256", "ECDHE-RSA-AES128-SHA", "ECDHE-ECDSA-AES128-SHA",
    "SRP-DSS-AES-128-CBC-SHA", "SRP-RSA-AES-128-CBC-SHA", "SRP-AES-128-CBC-SHA",
    "DH-DSS-AES128-GCM-SHA256", "DHE-DSS-AES128-GCM-SHA256", "DH-RSA-AES128-GCM-SHA256",
    "DHE-RSA-AES128-GCM-SHA256", "DHE-RSA-AES128-SHA256", "DHE-DSS-AES128-SHA256",
    "DH-RSA-AES128-SHA256", "DH-DSS-AES128-SHA256", "DHE-RSA-AES128-SHA",
    "DHE-DSS-AES128-SHA", "DH-RSA-AES128-SHA", "DH-DSS-AES128-SHA",
    "DHE-RSA-SEED-SHA", "DHE-DSS-SEED-SHA", "DH-RSA-SEED-SHA",
    "DH-DSS-SEED-SHA", "DHE-RSA-CAMELLIA128-SHA", "DHE-DSS-CAMELLIA128-SHA",
    "DH-RSA-CAMELLIA128-SHA", "DH-DSS-CAMELLIA128-SHA", "ECDH-RSA-AES128-GCM-SHA256",
    "ECDH-ECDSA-AES128-GCM-SHA256", "ECDH-RSA-AES128-SHA256", "ECDH-ECDSA-AES128-SHA256",
    "ECDH-RSA-AES128-SHA", "ECDH-ECDSA-AES128-SHA", "AES128-GCM-SHA256",
    "AES128-SHA256", "AES128-SHA", "SEED-SHA",
    "CAMELLIA128-SHA", "IDEA-CBC-SHA", "PSK-AES128-CBC-SHA",
    "ECDHE-RSA-RC4-SHA", "ECDHE-ECDSA-RC4-SHA", "ECDH-RSA-RC4-SHA",
    "ECDH-ECDSA-RC4-SHA", "RC4-SHA", "RC4-MD5",
    "PSK-RC4-SHA", "ECDHE-RSA-DES-CBC3-SHA", "ECDHE-ECDSA-DES-CBC3-SHA",
    "SRP-DSS-3DES-EDE-CBC-SHA", "SRP-RSA-3DES-EDE-CBC-SHA", "SRP-3DES-EDE-CBC-SHA",
    "EDH-RSA-DES-CBC3-SHA", "EDH-DSS-DES-CBC3-SHA", "DH-RSA-DES-CBC3-SHA",
    "DH-DSS-DES-CBC3-SHA", "ECDH-RSA-DES-CBC3-SHA", "ECDH-ECDSA-DES-CBC3-SHA",
    "DES-CBC3-SHA", "PSK-3DES-EDE-CBC-SHA", "EDH-RSA-DES-CBC-SHA",
    "EDH-DSS-DES-CBC-SHA", "DH-RSA-DES-CBC-SHA", "DH-DSS-DES-CBC-SHA",
    "DES-CBC-SHA", "EXP-EDH-RSA-DES-CBC-SHA", "EXP-EDH-DSS-DES-CBC-SHA",
    "EXP-DH-RSA-DES-CBC-SHA", "EXP-DH-DSS-DES-CBC-SHA", "EXP-DES-CBC-SHA",
    "EXP-RC2-CBC-MD5", "EXP-RC4-MD5", "ECDHE-RSA-NULL-SHA",
    "ECDHE-ECDSA-NULL-SHA", "AECDH-NULL-SHA", "ECDH-RSA-NULL-SHA",
    "ECDH-ECDSA-NULL-SHA", "NULL-SHA256", "NULL-SHA",
    "NULL-MD5"
  ]

  lemma CipherSuitesSize()
    ensures |CipherSuites| == 118
  {
  }

  /** The reply `openssl s_client` gives for a protocol name and a cipher. */
  type ExecEnv = (string, string) -> ExecReply

  const HandshakeFailure := "handshake failure"
  const NoCipherMatch := "no cipher match"
  const CipherIsNone := "Cipher is (NONE)"

  /** `"unknown option -" + options.protocol.opensslAbbrev`: concatenating an
      absent field appends the text "undefined". */
  function UnknownOptionText(m: Method): string
  {
    "unknown option -" + (if m.opensslAbbrev.Some? then m.opensslAbbrev.value else "undefined")
  }

  /** The three-way classification of a probe. */
  datatype Verdict = Enabled | Disabled | Unsupported

  /** The verdict of an error text: the first of the four patterns it
      mentions decides; none of them leaves the error unrecognised. */
  function ErrorVerdict(m: Method, e: string): Option<Verdict>
  {
    if Contains(e, HandshakeFailure) then Some(Disabled)
    else if Contains(e, NoCipherMatch) then Some(Unsupported)
    else if Contains(e, CipherIsNone) then Some(Disabled)
    else if Contains(e, UnknownOptionText(m)) then Some(Unsupported)
    else None
  }

  function OutcomeOf(m: Method, cipher: string, v: Verdict): CipherOutcome
  {
    CipherOutcome(m.name, cipher, v == Enabled, v == Unsupported)
  }

  /** The resolve and reject calls the exec callback makes, in program order.
      A recognised error resolves and sets `failed`, after which the callback
      also rejects; otherwise it resolves once, enabled unless the output
      reports a handshake failure. */
  function CipherCallback(host: string, port: int, m: Method, cipher: string, reply: ExecReply)
    : seq<Settlement<CipherOutcome, CipherFailure>>
  {
    var failed := if reply.err.Some? then ErrorVerdict(m, reply.err.value) else None;
    if failed.Some? then
      [ Resolve(OutcomeOf(m, cipher, failed.value)),
        Reject(CipherFailure(host, port, m.name, cipher, reply.err.value)) ]
    else
      [ Resolve(OutcomeOf(m, cipher, if Contains(reply.output, HandshakeFailure) then Disabled else Enabled)) ]
  }

  /** The error text mentions `pat`. */
  predicate ErrorMentions(reply: ExecReply, pat: string)
  {
    reply.err.Some? && Contains(reply.err.value, pat)
  }

  /** One cipher probe: the fate of its deferred, which is always a
      resolution, classified by the first pattern the error mentions. */
  function TrySSLCipher(host: string, port: int, m: Method, cipher: string, reply: ExecReply)
    : (r: Settlement<CipherOutcome, CipherFailure>)
    ensures r.Resolve?
    ensures r.value.protocol == m.name && r.value.cipher == cipher
    ensures !(r.value.enabled && r.value.unsupported)
    ensures ErrorMentions(reply, HandshakeFailure) ==> !r.value.enabled && !r.value.unsupported
    ensures (&& !ErrorMentions(reply, HandshakeFailure)
             && ErrorMentions(reply, NoCipherMatch))
            ==> !r.value.enabled && r.value.unsupported
    ensures (&& !ErrorMentions(reply, HandshakeFailure)
             && !ErrorMentions(reply, NoCipherMatch)
             && ErrorMentions(reply, CipherIsNone))
            ==> !r.value.enabled && !r.value.unsupported
    ensures (&& !ErrorMentions(reply, HandshakeFailure)
             && !ErrorMentions(reply, NoCipherMatch)
             && !ErrorMentions(reply, CipherIsNone)
             && ErrorMentions(reply, UnknownOptionText(m)))
            ==> !r.value.enabled && r.value.unsupported
    ensures (&& !ErrorMentions(reply, HandshakeFailure)
             && !ErrorMentions(reply, NoCipherMatch)
             && !ErrorMentions(reply, CipherIsNone)
             && !ErrorMentions(reply, UnknownOptionText(m)))
            ==> r.value.enabled == !Contains(reply.output, HandshakeFailure) && !r.value.unsupported
  {
    FirstSettle(CipherCallback(host, port, m, cipher, reply)).value
  }

  /** The callback does call reject, exactly when the error is recognised,
      but only after it has resolved, so the rejection never takes effect. */
  lemma CipherRejectIsIgnored(host: string, port: int, m: Method, cipher: string, reply: ExecReply)
    ensures var calls := CipherCallback(host, port, m, cipher, reply);
      && calls[0].Resolve?
      && ((exists i :: 0 <= i < |calls| && calls[i].Reject?)
          <==> reply.err.Some? && ErrorVerdict(m, reply.err.value).Some?)
  {
    var calls := CipherCallback(host, port, m, cipher, reply);
    if reply.err.Some? && ErrorVerdict(m, reply.err.value).Some? {
      assert calls[1].Reject?;
    }
  }

  /** The list an outcome is appended to: enabled first, then unsupported. */
  function VerdictOf(o: CipherOutcome): Verdict
  {
    if o.enabled then Enabled else if o.unsupported then Unsupported else Disabled
  }

  const NoCiphers := CipherLists([], [], [])

  /** Appends the outcome's cipher to the list its verdict selects. */
  function FileOutcome(lists: CipherLists, o: CipherOutcome): CipherLists
  {
    match VerdictOf(o)
    case Enabled => lists.(enabled := lists.enabled + [o.cipher])
    case Unsupported => lists.(unsupported := lists.unsupported + [o.cipher])
    case Disabled => lists.(disabled := lists.disabled + [o.cipher])
  }

  function Entry(matrix: map<string, CipherLists>, protocol: string): CipherLists
  {
    if protocol in matrix then matrix[protocol] else NoCiphers
  }

  /** The second forEach: each outcome, in order, is filed under its
      protocol, whose entry is created on first sight. */
  function FoldOutcomes(matrix: map<string, CipherLists>, os: seq<CipherOutcome>): map<string, CipherLists>
  {
    if os == [] then matrix
    else
      var before := FoldOutcomes(matrix, os[..|os| - 1]);
      var o := os[|os| - 1];
      before[o.protocol := FileOutcome(Entry(before, o.protocol), o)]
  }

  /** Files each outcome of `os`, in order, into one entry. */
  function FileAll(lists: CipherLists, os: seq<CipherOutcome>): CipherLists
  {
    if os == [] then lists else FileOutcome(FileAll(lists, os[..|os| - 1]), os[|os| - 1])
  }

  /** The outcomes of `os` for `protocol`, in order. */
  function OnlyFor(os: seq<CipherOutcome>, protocol: string): seq<CipherOutcome>
  {
    if os == [] then []
    else OnlyFor(os[..|os| - 1], protocol) + (if os[|os| - 1].protocol == protocol then [os[|os| - 1]] else [])
  }

  lemma {:induction false} OnlyForAppend(a: seq<CipherOutcome>, b: seq<CipherOutcome>, protocol: string)
    ensures OnlyFor(a + b, protocol) == OnlyFor(a, protocol) + OnlyFor(b, protocol)
  {
    if b != [] {
      assert (a + b)[..|a + b| - 1] == a + b[..|b| - 1];
      OnlyForAppend(a, b[..|b| - 1], protocol);
    } else {
      assert a + b == a;
    }
  }

  /** Folding touches each protocol's entry only through that protocol's own
      outcomes: an entry exists when it existed before or one of them came
      along, and it is the in-order filing of exactly those outcomes. */
  lemma {:induction false} FoldProjection(matrix: map<string, CipherLists>, os: seq<CipherOutcome>, protocol: string)
    ensures protocol in FoldOutcomes(matrix, os) <==> protocol in matrix || OnlyFor(os, protocol) != []
    ensures Entry(FoldOutcomes(matrix, os), protocol) == FileAll(Entry(matrix, protocol), OnlyFor(os, protocol))
  {
    if os != [] {
      var init, o := os[..|os| - 1], os[|os| - 1];
      FoldProjection(matrix, init, protocol);
      FoldStep(matrix, os, protocol);
      var mine := OnlyFor(init, protocol);
      if o.protocol == protocol {
        assert OnlyFor(os, protocol) == mine + [o];
        FileAllSnoc(Entry(matrix, protocol), mine, o);
      } else {
        assert OnlyFor(os, protocol) == mine + [] == mine;
      }
    }
  }

  /** The last outcome touches only its own protocol's entry, which it creates
      when missing and files itself into. */
  lemma FoldStep(matrix: map<string, CipherLists>, os: seq<CipherOutcome>, protocol: string)
    requires os != []
    ensures var before, o := FoldOutcomes(matrix, os[..|os| - 1]), os[|os| - 1];
      && (protocol in FoldOutcomes(matrix, os) <==> protocol in before || o.protocol == protocol)
      && Entry(FoldOutcomes(matrix, os), protocol)
         == if o.protocol == protocol then FileOutcome(Entry(before, protocol), o) else Entry(before, protocol)
  {
  }

  /** Filing one more outcome after a list files it last. */
  lemma FileAllSnoc(lists: CipherLists, xs: seq<CipherOutcome>, o: CipherOutcome)
    ensures FileAll(lists, xs + [o]) == FileOutcome(FileAll(lists, xs), o)
  {
    assert (xs + [o])[..|xs|] == xs;
  }

  /** The ciphers of the outcomes of `os` whose verdict is `v`, in order. */
  function CiphersWith(os: seq<CipherOutcome>, v: Verdict): seq<string>
  {
    if os == [] then []
    else CiphersWith(os[..|os| - 1], v) + (if VerdictOf(os[|os| - 1]) == v then [os[|os| - 1].cipher] else [])
  }

  /** Filing into an empty entry sorts the outcomes' ciphers into the three
      lists by verdict, keeping their order. */
  lemma {:induction false} FileAllSorts(os: seq<CipherOutcome>)
    ensures FileAll(NoCiphers, os)
      == CipherLists(CiphersWith(os, Enabled), CiphersWith(os, Disabled), CiphersWith(os, Unsupported))
  {
    if os != [] {
      FileAllSorts(os[..|os| - 1]);
    }
  }

  /** `cipherSuites.map(...)` for one method: one probe per cipher, in order. */
  function CipherRow(host: string, port: int, m: Method, cs: seq<string>, env: ExecEnv)
    : seq<Settlement<CipherOutcome, CipherFailure>>
  {
    seq(|cs|, k requires 0 <= k < |cs| => TrySSLCipher(host, port, m, cs[k], env(m.name, cs[k])))
  }

  /** What the probes of one row resolve with. */
  function RowOutcomes(host: string, port: int, m: Method, cs: seq<string>, env: ExecEnv): seq<CipherOutcome>
  {
    seq(|cs|, k requires 0 <= k < |cs| => TrySSLCipher(host, port, m, cs[k], env(m.name, cs[k])).value)
  }

  lemma RowResolves(host: string, port: int, m: Method, cs: seq<string>, env: ExecEnv)
    ensures All(CipherRow(host, port, m, cs, env)) == Resolve(RowOutcomes(host, port, m, cs, env))
  {
    var row := CipherRow(host, port, m, cs, env);
    forall k | 0 <= k < |row| ensures row[k].Resolve? {
      assert row[k] == TrySSLCipher(host, port, m, cs[k], env(m.name, cs[k]));
    }
    assert All(row).value == RowOutcomes(host, port, m, cs, env);
  }

  /** Every enabled protocol names a row of the method table. */
  predicate EnabledProtocolsKnown(ps: seq<ProtocolOutcome>)
  {
    forall i :: 0 <= i < |ps| && ps[i].enabled ==> Lookup(ps[i].protocol).Some?
  }

  /** No two enabled results name the same protocol. */
  predicate EnabledProtocolsDistinct(ps: seq<ProtocolOutcome>)
  {
    forall i, j :: 0 <= i < j < |ps| && ps[i].enabled && ps[j].enabled ==> ps[i].protocol != ps[j].protocol
  }

  /** `allTasks` after the first forEach: one row per enabled protocol, in order. */
  function CipherTasks(host: string, port: int, ps: seq<ProtocolOutcome>, cs: seq<string>, env: ExecEnv)
    : seq<seq<Settlement<CipherOutcome, CipherFailure>>>
    requires EnabledProtocolsKnown(ps)
  {
    if ps == [] then []
    else
      var last := ps[|ps| - 1];
      CipherTasks(host, port, ps[..|ps| - 1], cs, env)
        + (if last.enabled then [CipherRow(host, port, Lookup(last.protocol).value, cs, env)] else [])
  }

  /** What the rows of `CipherTasks` resolve with, row after row. */
  function CipherOutcomes(host: string, port: int, ps: seq<ProtocolOutcome>, cs: seq<string>, env: ExecEnv)
    : seq<CipherOutcome>
    requires EnabledProtocolsKnown(ps)
  {
    if ps == [] then []
    else
      var last := ps[|ps| - 1];
      CipherOutcomes(host, port, ps[..|ps| - 1], cs, env)
        + (if last.enabled then RowOutcomes(host, port, Lookup(last.protocol).value, cs, env) else [])
  }

  /** No cipher probe rejects, so Q.all over all of them resolves, with their
      outcomes row after row. */
  lemma {:induction false} CipherTasksResolve(host: string, port: int, ps: seq<ProtocolOutcome>, cs: seq<string>, env: ExecEnv)
    requires EnabledProtocolsKnown(ps)
    ensures All(Flatten(CipherTasks(host, port, ps, cs, env))) == Resolve(CipherOutcomes(host, port, ps, cs, env))
  {
    if ps != [] {
      var init := ps[..|ps| - 1];
      var last := ps[|ps| - 1];
      CipherTasksResolve(host, port, init, cs, env);
      var rows := CipherTasks(host, port, init, cs, env);
      if last.enabled {
        var m := Lookup(last.protocol).value;
        var row := CipherRow(host, port, m, cs, env);
        FlattenConcat(rows, [row]);
        assert Flatten([row]) == row by { assert [row][..0] == []; }
        assert CipherTasks(host, port, ps, cs, env) == rows + [row];
        RowResolves(host, port, m, cs, env);
        AllAppend(Flatten(rows), row);
      } else {
        assert CipherTasks(host, port, ps, cs, env) == rows + [] == rows;
        assert CipherOutcomes(host, port, ps, cs, env) == CipherOutcomes(host, port, init, cs, env) + []
          == CipherOutcomes(host, port, init, cs, env);
      }
    }
  }

  /** The matrix the cipher stage builds for the host's protocol results. */
  function CipherMatrix(host: string, port: int, ps: seq<ProtocolOutcome>, env: ExecEnv): map<string, CipherLists>
    requires EnabledProtocolsKnown(ps)
  {
    FoldOutcomes(map[], CipherOutcomes(host, port, ps, CipherSuites, env))
  }

  lemma RowOnlyFor(host: string, port: int, m: Method, cs: seq<string>, env: ExecEnv, protocol: string)
    ensures OnlyFor(RowOutcomes(host, port, m, cs, env), protocol)
      == if m.name == protocol then RowOutcomes(host, port, m, cs, env) else []
  {
    var row := RowOutcomes(host, port, m, cs, env);
    forall k | 0 <= k < |row| ensures row[k].protocol == m.name {
      assert row[k] == TrySSLCipher(host, port, m, cs[k], env(m.name, cs[k])).value;
    }
    OnlyForUniform(row, protocol, m.name);
  }

  /** Outcomes that all belong to protocol `q` are kept whole for `q` and
      dropped for any other protocol. */
  lemma {:induction false} OnlyForUniform(os: seq<CipherOutcome>, protocol: string, q: string)
    requires forall k :: 0 <= k < |os| ==> os[k].protocol == q
    ensures OnlyFor(os, protocol) == if q == protocol then os else []
  {
    if os != [] {
      var init := os[..|os| - 1];
      forall k | 0 <= k < |init| ensures init[k].protocol == q {
        assert init[k] == os[k];
      }
      OnlyForUniform(init, protocol, q);
      if q == protocol {
        assert os == init + [os[|os| - 1]];
      }
    }
  }

  /** The outcomes for one protocol are the probes of the rows of the enabled
      results that name it. */
  lemma {:induction false} OutcomesForProtocol(host: string, port: int, ps: seq<ProtocolOutcome>, cs: seq<string>,
                                               env: ExecEnv, protocol: string)
    requires EnabledProtocolsKnown(ps) && EnabledProtocolsDistinct(ps)
    ensures (exists i :: 0 <= i < |ps| && ps[i].enabled && ps[i].protocol == protocol) ==>
      OnlyFor(CipherOutcomes(host, port, ps, cs, env), protocol)
        == RowOutcomes(host, port, Lookup(protocol).value, cs, env)
    ensures (forall i :: 0 <= i < |ps| && ps[i].enabled ==> ps[i].protocol != protocol) ==>
      OnlyFor(CipherOutcomes(host, port, ps, cs, env), protocol) == []
  {
    if ps != [] {
      var init, last := ps[..|ps| - 1], ps[|ps| - 1];
      EnabledProtocolsPrefix(ps);
      OutcomesForProtocol(host, port, init, cs, env, protocol);
      OutcomesForProtocolStep(host, port, ps, cs, env, protocol);
      if last.enabled && last.protocol == protocol {
        forall i | 0 <= i < |init| && init[i].enabled ensures init[i].protocol != protocol {
          assert ps[i] == init[i];
        }
      } else {
        if exists i :: 0 <= i < |ps| && ps[i].enabled && ps[i].protocol == protocol {
          var i :| 0 <= i < |ps| && ps[i].enabled && ps[i].protocol == protocol;
          assert i < |init| && init[i] == ps[i];
        }
        forall i | 0 <= i < |init| ensures init[i] == ps[i] { }
      }
    }
  }

  /** The last result adds the outcomes for `protocol` of its own row, which
      are all of them when it is enabled and names `protocol`, and none
      otherwise. */
  lemma OutcomesForProtocolStep(host: string, port: int, ps: seq<ProtocolOutcome>, cs: seq<string>,
                                env: ExecEnv, protocol: string)
    requires ps != [] && EnabledProtocolsKnown(ps) && EnabledProtocolsKnown(ps[..|ps| - 1])
    ensures var last := ps[|ps| - 1];
      OnlyFor(CipherOutcomes(host, port, ps, cs, env), protocol)
        == OnlyFor(CipherOutcomes(host, port, ps[..|ps| - 1], cs, env), protocol)
           + (if last.enabled && last.protocol == protocol then RowOutcomes(host, port, Lookup(protocol).value, cs, env)
              else [])
  {
    var last := ps[|ps| - 1];
    var before := CipherOutcomes(host, port, ps[..|ps| - 1], cs, env);
    var tail := if last.enabled then RowOutcomes(host, port, Lookup(last.protocol).value, cs, env) else [];
    assert CipherOutcomes(host, port, ps, cs, env) == before + tail;
    OnlyForAppend(before, tail, protocol);
    if last.enabled {
      LookupByName(last.protocol);
      RowOnlyFor(host, port, Lookup(last.protocol).value, cs, env, protocol);
    }
  }

  /** Dropping the last result keeps both conditions on the enabled results. */
  lemma EnabledProtocolsPrefix(ps: seq<ProtocolOutcome>)
    requires ps != [] && EnabledProtocolsKnown(ps) && EnabledProtocolsDistinct(ps)
    ensures EnabledProtocolsKnown(ps[..|ps| - 1]) && EnabledProtocolsDistinct(ps[..|ps| - 1])
  {
    var init := ps[..|ps| - 1];
    forall i | 0 <= i < |init| ensures init[i] == ps[i] { }
  }

  /** The catalog ciphers whose probe for `m` has verdict `v`, in catalog order. */
  function Selected(host: string, port: int, m: Method, cs: seq<string>, env: ExecEnv, v: Verdict): seq<string>
  {
    CiphersWith(RowOutcomes(host, port, m, cs, env), v)
  }

  /** The ciphers of the outcomes, in order. */
  function CiphersOf(os: seq<CipherOutcome>): (r: seq<string>)
    ensures |r| == |os| && forall k :: 0 <= k < |os| ==> r[k] == os[k].cipher
  {
    if os == [] then [] else CiphersOf(os[..|os| - 1]) + [os[|os| - 1].cipher]
  }

  /** Each outcome's cipher lands in exactly one of the three lists: the
      sizes add up. */
  lemma {:induction false} CiphersWithSizes(os: seq<CipherOutcome>)
    ensures |CiphersWith(os, Enabled)| + |CiphersWith(os, Disabled)| + |CiphersWith(os, Unsupported)| == |os|
  {
    if os != [] {
      CiphersWithSizes(os[..|os| - 1]);
    }
  }

  /** Each outcome's cipher lands in exactly one of the three lists: the
      multiplicities add up. */
  lemma {:induction false} CiphersWithPartition(os: seq<CipherOutcome>)
    ensures multiset(CiphersWith(os, Enabled)) + multiset(CiphersWith(os, Disabled))
            + multiset(CiphersWith(os, Unsupported)) == multiset(CiphersOf(os))
  {
    if os != [] {
      var init, o := os[..|os| - 1], os[|os| - 1];
      CiphersWithPartition(init);
      CiphersWithSnoc(os, Enabled);
      CiphersWithSnoc(os, Disabled);
      CiphersWithSnoc(os, Unsupported);
      assert CiphersOf(os) == CiphersOf(init) + [o.cipher];
      FileOneMore(CiphersWith(init, Enabled), CiphersWith(init, Disabled), CiphersWith(init, Unsupported),
                  CiphersOf(init), o.cipher, VerdictOf(o));
    }
  }

  /** Adding the last outcome appends its cipher to its verdict's list only. */
  lemma CiphersWithSnoc(os: seq<CipherOutcome>, v: Verdict)
    requires os != []
    ensures CiphersWith(os, v)
            == CiphersWith(os[..|os| - 1], v) + (if VerdictOf(os[|os| - 1]) == v then [os[|os| - 1].cipher] else [])
  {
  }

  /** Three lists that split `all` still split it once `x` is appended to
      `all` and to the list `v` selects. */
  lemma FileOneMore(e: seq<string>, d: seq<string>, u: seq<string>, all: seq<string>, x: string, v: Verdict)
    requires multiset(e) + multiset(d) + multiset(u) == multiset(all)
    ensures multiset(e + (if v == Enabled then [x] else [])) + multiset(d + (if v == Disabled then [x] else []))
            + multiset(u + (if v == Unsupported then [x] else [])) == multiset(all + [x])
  {
    assert multiset(all + [x]) == multiset(all) + multiset{x};
    match v
    case Enabled =>
      assert multiset(e + [x]) == multiset(e) + multiset{x};
      assert d + [] == d && u + [] == u;
    case Disabled =>
      assert multiset(d + [x]) == multiset(d) + multiset{x};
      assert e + [] == e && u + [] == u;
    case Unsupported =>
      assert multiset(u + [x]) == multiset(u) + multiset{x};
      assert d + [] == d && e + [] == e;
  }

  /** Each list keeps the outcomes' order. */
  lemma {:induction false} CiphersWithKeepsOrder(os: seq<CipherOutcome>, v: Verdict)
    ensures IsSubsequence(CiphersWith(os, v), CiphersOf(os))
  {
    if os != [] {
      var init, o := os[..|os| - 1], os[|os| - 1];
      CiphersWithKeepsOrder(init, v);
      if VerdictOf(o) == v {
        SubsequenceAppendBoth(CiphersWith(init, v), CiphersOf(init), o.cipher);
      } else {
        SubsequenceExtend(CiphersWith(init, v), CiphersOf(init), o.cipher);
        assert CiphersWith(os, v) == CiphersWith(init, v) + [] == CiphersWith(init, v);
      }
    }
  }

  /** A cipher is in the list for `v` exactly when some outcome for it has that verdict. */
  lemma {:induction false} CiphersWithMembers(os: seq<CipherOutcome>, v: Verdict, c: string)
    ensures c in CiphersWith(os, v) <==> exists i :: 0 <= i < |os| && os[i].cipher == c && VerdictOf(os[i]) == v
  {
    if os != [] {
      var init := os[..|os| - 1];
      CiphersWithMembers(init, v, c);
      if exists i :: 0 <= i < |os| && os[i].cipher == c && VerdictOf(os[i]) == v {
        var i :| 0 <= i < |os| && os[i].cipher == c && VerdictOf(os[i]) == v;
        if i < |init| {
          assert init[i] == os[i];
        }
      }
    }
  }

  /** For one protocol, the three lists split the catalog: every catalog
      cipher is in the list its probe's verdict selects, no list holds
      anything else, sizes and multiplicities add up to the catalog's, and
      each list keeps catalog order. */
  lemma SelectedPartition(host: string, port: int, m: Method, cs: seq<string>, env: ExecEnv)
    ensures |Selected(host, port, m, cs, env, Enabled)| + |Selected(host, port, m, cs, env, Disabled)|
            + |Selected(host, port, m, cs, env, Unsupported)| == |cs|
    ensures multiset(Selected(host, port, m, cs, env, Enabled)) + multiset(Selected(host, port, m, cs, env, Disabled))
            + multiset(Selected(host, port, m, cs, env, Unsupported)) == multiset(cs)
    ensures forall v :: IsSubsequence(Selected(host, port, m, cs, env, v), cs)
    ensures forall v, c :: c in Selected(host, port, m, cs, env, v) <==>
      c in cs && VerdictOf(TrySSLCipher(host, port, m, c, env(m.name, c)).value) == v
  {
    var row := RowOutcomes(host, port, m, cs, env);
    forall k | 0 <= k < |cs| ensures CiphersOf(row)[k] == cs[k] {
      assert row[k] == TrySSLCipher(host, port, m, cs[k], env(m.name, cs[k])).value;
    }
    assert CiphersOf(row) == cs;
    CiphersWithSizes(row);
    CiphersWithPartition(row);
    forall v ensures IsSubsequence(Selected(host, port, m, cs, env, v), cs) {
      CiphersWithKeepsOrder(row, v);
    }
    forall v, c ensures c in Selected(host, port, m, cs, env, v) <==>
      c in cs && VerdictOf(TrySSLCipher(host, port, m, c, env(m.name, c)).value) == v
    {
      CiphersWithMembers(row, v, c);
      if c in cs {
        var k :| 0 <= k < |cs| && cs[k] == c;
        assert row[k].cipher == c;
      }
    }
  }

  /** The matrix has an entry for a protocol exactly when an enabled result
      names it: a disabled protocol is never probed for ciphers. */
  lemma MatrixKeys(host: string, port: int, ps: seq<ProtocolOutcome>, env: ExecEnv, protocol: string)
    requires EnabledProtocolsKnown(ps) && EnabledProtocolsDistinct(ps)
    ensures protocol in CipherMatrix(host, port, ps, env)
      <==> exists i :: 0 <= i < |ps| && ps[i].enabled && ps[i].protocol == protocol
  {
    CipherSuitesSize();
    FoldProjection(map[], CipherOutcomes(host, port, ps, CipherSuites, env), protocol);
    OutcomesForProtocol(host, port, ps, CipherSuites, env, protocol);
  }

  /** The entry of an enabled protocol holds the catalog split by the verdict
      of that protocol's probes. */
  lemma MatrixEntry(host: string, port: int, ps: seq<ProtocolOutcome>, env: ExecEnv, i: nat)
    requires EnabledProtocolsKnown(ps) && EnabledProtocolsDistinct(ps)
    requires i < |ps| && ps[i].enabled
    ensures var m, matrix := Lookup(ps[i].protocol).value, CipherMatrix(host, port, ps, env);
      && ps[i].protocol in matrix
      && matrix[ps[i].protocol] == CipherLists(Selected(host, port, m, CipherSuites, env, Enabled),
                                               Selected(host, port, m, CipherSuites, env, Disabled),
                                               Selected(host, port, m, CipherSuites, env, Unsupported))
  {
    var protocol := ps[i].protocol;
    var m := Lookup(protocol).value;
    MatrixKeys(host, port, ps, env, protocol);
    FoldProjection(map[], CipherOutcomes(host, port, ps, CipherSuites, env), protocol);
    OutcomesForProtocol(host, port, ps, CipherSuites, env, protocol);
    FileAllSorts(RowOutcomes(host, port, m, CipherSuites, env));
  }

  /** getCipherResults: probe every catalog cipher for each enabled protocol,
      then, once all probes have settled, replace the host's cipher matrix by
      the fold of their outcomes. Only the matrix changes. */
  method GetCipherResults(hostData: HostData, env: ExecEnv)
    requires EnabledProtocolsKnown(hostData.protocols)
    modifies hostData`ciphers
    ensures hostData.ciphers == CipherMatrix(hostData.host, hostData.port, hostData.protocols, env)
  {
    var protocols := hostData.protocols;
    var allTasks: seq<seq<Settlement<CipherOutcome, CipherFailure>>> := [];
    var i := 0;
    while i < |protocols|
      invariant 0 <= i <= |protocols|
      invariant EnabledProtocolsKnown(protocols[..i])
      invariant allTasks == CipherTasks(hostData.host, hostData.port, protocols[..i], CipherSuites, env)
    {
      var item := protocols[i];
      assert protocols[..i + 1][..i] == protocols[..i];
      if item.enabled {
        var m := Lookup(item.protocol).value;
        allTasks := allTasks + [CipherRow(hostData.host, hostData.port, m, CipherSuites, env)];
      }
      i := i + 1;
    }
    assert protocols[..i] == protocols;
    // No cipher probe rejects, so Q.all resolves and its continuation runs.
    CipherTasksResolve(hostData.host, hostData.port, protocols, CipherSuites, env);
    var results := All(Flatten(allTasks)).value;
    RecordCipherResults(hostData, results);
  }

  /** The continuation of Q.all in getCipherResults: start a fresh matrix and
      append each outcome's cipher, in order, to the list of its protocol's
      entry that its verdict selects, creating the entry on first sight. */
  method RecordCipherResults(hostData: HostData, results: seq<CipherOutcome>)
    modifies hostData`ciphers
    ensures hostData.ciphers == FoldOutcomes(map[], results)
  {
    hostData.ciphers := map[];
    var j := 0;
    while j < |results|
      invariant 0 <= j <= |results|
      invariant hostData.ciphers == FoldOutcomes(map[], results[..j])
    {
      var item := results[j];
      assert results[..j + 1][..j] == results[..j];
      if item.protocol !in hostData.ciphers {
        hostData.ciphers := hostData.ciphers[item.protocol := NoCiphers];
      }
      var cipherRoot := hostData.ciphers[item.protocol];
      if item.enabled {
        cipherRoot := cipherRoot.(enabled := cipherRoot.enabled + [item.cipher]);
      } else {
        if item.unsupported {
          cipherRoot := cipherRoot.(unsupported := cipherRoot.unsupported + [item.cipher]);
        } else {
          cipherRoot := cipherRoot.(disabled := cipherRoot.disabled + [item.cipher]);
        }
      }
      hostData.ciphers := hostData.ciphers[item.protocol := cipherRoot];
      j := j + 1;
    }
    assert results[..j] == results;
  }

  /** The protocol results of a resolved probe round meet what the cipher
      stage needs: every enabled protocol is a table key, and no two name the
      same protocol. */
  lemma ProtocolResultsWellFormed(probe: Probe, signals: string -> HandshakeSignal)
    ensures var settled := All(ProbeProtocols(probe, signals));
      settled.Resolve? ==> EnabledProtocolsKnown(settled.value) && EnabledProtocolsDistinct(settled.value)
  {
    ProtocolResultsKnown(probe, signals);
    ProtocolResultsInTableOrder(probe, signals);
    MethodTableShape();
  }

  /** When every outcome has the same verdict, its list holds every cipher
      and the other two stay empty. */
  lemma {:induction false} CiphersWithUniform(os: seq<CipherOutcome>, v: Verdict, w: Verdict)
    requires forall i :: 0 <= i < |os| ==> VerdictOf(os[i]) == v
    ensures CiphersWith(os, w) == if w == v then CiphersOf(os) else []
  {
    if os != [] {
      var init := os[..|os| - 1];
      CiphersWithUniform(init, v, w);
    }
  }

  /** A protocol for which every cipher run succeeds without reporting a
      handshake failure lists every probed cipher as enabled, in order. */
  lemma RowAllEnabled(host: string, port: int, m: Method, cs: seq<string>, env: ExecEnv)
    requires forall c :: env(m.name, c).err.None? && !Contains(env(m.name, c).output, HandshakeFailure)
    ensures Selected(host, port, m, cs, env, Enabled) == cs
    ensures Selected(host, port, m, cs, env, Disabled) == []
    ensures Selected(host, port, m, cs, env, Unsupported) == []
  {
    var row := RowOutcomes(host, port, m, cs, env);
    forall k | 0 <= k < |cs| ensures row[k].cipher == cs[k] && VerdictOf(row[k]) == Enabled {
      assert row[k] == TrySSLCipher(host, port, m, cs[k], env(m.name, cs[k])).value;
      assert !ErrorMentions(env(m.name, cs[k]), HandshakeFailure);
    }
    assert CiphersOf(row) == cs;
    CiphersWithUniform(row, Enabled, Enabled);
    CiphersWithUniform(row, Enabled, Disabled);
    CiphersWithUniform(row, Enabled, Unsupported);
  }

  /** A host that completes every handshake and accepts every cipher: every
      method is enabled, and its entry lists the whole catalog as enabled. */
  lemma EverythingAccepted(host: string, port: int, probe: Probe, signals: string -> HandshakeSignal, env: ExecEnv)
    requires forall name :: signals(name) == Connected
    requires forall name, c :: env(name, c).err.None? && !Contains(env(name, c).output, HandshakeFailure)
    ensures var settled := All(ProbeProtocols(probe, signals));
      && settled.Resolve?
      && |settled.value| == 5
      && EnabledProtocolsKnown(settled.value)
      && forall i :: 0 <= i < 5 ==>
           && settled.value[i].enabled
           && AllMethods()[i].name in CipherMatrix(host, port, settled.value, env)
           && CipherMatrix(host, port, settled.value, env)[AllMethods()[i].name] == CipherLists(CipherSuites, [], [])
  {
    var settled := All(ProbeProtocols(probe, signals));
    ProtocolResultsInTableOrder(probe, signals);
    ProtocolResultsWellFormed(probe, signals);
    var ps := settled.value;
    forall i | 0 <= i < 5
      ensures AllMethods()[i].name in CipherMatrix(host, port, ps, env)
      ensures CipherMatrix(host, port, ps, env)[AllMethods()[i].name] == CipherLists(CipherSuites, [], [])
    {
      MatrixEntry(host, port, ps, env, i);
      RowAllEnabled(host, port, Lookup(ps[i].protocol).value, CipherSuites, env);
    }
  }

  /** A host whose every handshake ends in a socket error that, for the
      probe as written, does not start with "true" (a handshake failure, say),
      or, for the corrected probe, names a wrong version number: every method
      is disabled and the cipher matrix stays empty. */
  lemma EverythingRefused(host: string, port: int, probe: Probe, signals: string -> HandshakeSignal, env: ExecEnv)
    requires forall name :: signals(name).SocketError?
    requires probe == AsWritten ==> forall name :: !StartsWith(signals(name).message, "true")
    requires probe == Corrected ==> forall name :: Contains(signals(name).message, WrongVersionNumber)
    ensures var settled := All(ProbeProtocols(probe, signals));
      && settled.Resolve?
      && (forall i :: 0 <= i < |settled.value| ==> !settled.value[i].enabled)
      && EnabledProtocolsKnown(settled.value)
      && CipherMatrix(host, port, settled.value, env) == map[]
  {
    if probe == AsWritten {
      SlipEverywhere(signals);
    } else {
      WrongVersionEverywhere(signals);
    }
    var settled := All(ProbeProtocols(probe, signals));
    NoneEnabledNoOutcomes(host, port, settled.value, CipherSuites, env);
  }

  /** A host that answers every handshake with the socket error "Error:
      handshake failure": as written, every method is disabled and the
      cipher matrix stays empty; corrected, the protocol round rejects. */
  lemma HandshakeFailureEverywhere(host: string, port: int, signals: string -> HandshakeSignal, env: ExecEnv)
    requires forall name :: signals(name) == SocketError(None, "Error: handshake failure")
    ensures var settled := All(ProbeProtocols(AsWritten, signals));
      && settled.Resolve?
      && (forall i :: 0 <= i < |settled.value| ==> !settled.value[i].enabled)
      && EnabledProtocolsKnown(settled.value)
      && CipherMatrix(host, port, settled.value, env) == map[]
    ensures All(ProbeProtocols(Corrected, signals)) == Reject("Error: handshake failure")
  {
    HandshakeFailureRound(signals);
    EverythingRefused(host, port, AsWritten, signals, env);
  }

  /** Results none of which is enabled start no cipher probe. */
  lemma {:induction false} NoneEnabledNoOutcomes(host: string, port: int, ps: seq<ProtocolOutcome>, cs: seq<string>,
                                                 env: ExecEnv)
    requires forall i :: 0 <= i < |ps| ==> !ps[i].enabled
    ensures EnabledProtocolsKnown(ps) && CipherOutcomes(host, port, ps, cs, env) == []
  {
    if ps != [] {
      var init := ps[..|ps| - 1];
      forall i | 0 <= i < |init| ensures !init[i].enabled {
        assert init[i] == ps[i];
      }
      NoneEnabledNoOutcomes(host, port, init, cs, env);
    }
  }
}
