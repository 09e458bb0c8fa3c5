/** The records the prober produces and the host record its stages fill in. */
module Reports {
  import opened Promises

  /** One row of the method table: the Node.js secureProtocol name, its
      common name and, where the row has one, the openssl s_client flag. */
  datatype Method = Method(name: string, commonName: string, opensslAbbrev: Option<string>)

  /** What a protocol probe resolves with. */
  datatype ProtocolOutcome = ProtocolOutcome(protocol: string, name: string, enabled: bool, error: Option<string>)

  /** What a cipher probe resolves with; an absent `unsupported` reads as false. */
  datatype CipherOutcome = CipherOutcome(protocol: string, cipher: string, enabled: bool, unsupported: bool)

  /** What a cipher probe would reject with. */
  datatype CipherFailure = CipherFailure(host: string, port: int, protocol: string, cipher: string, error: string)

  /** One protocol's entry in the cipher matrix. */
  datatype CipherLists = CipherLists(enabled: seq<string>, disabled: seq<string>, unsupported: seq<string>)

  /** The arguments `openssl.exec` passes its callback: the error, if any,
      and the command's output, both as text. */
  datatype ExecReply = ExecReply(err: Option<string>, output: string)

  /** The host record the server stages thread through: the protocol stage
      sets `protocols`, the cipher stage sets `ciphers`. */
  class HostData {
    var host: string
    var port: int
    var protocols: seq<ProtocolOutcome>
    var ciphers: map<string, CipherLists>

    /** The source's record has no `protocols` or `ciphers` until a stage
        assigns them; the empty values stand for that, and lib/sslinfo.js
        always runs the protocol stage before the cipher stage reads them. */
    constructor (host: string, port: int)
      ensures this.host == host && this.port == port
      ensures protocols == [] && ciphers == map[]
    {
      this.host := host;
      this.port := port;
      protocols := [];
      ciphers := map[];
    }
  }
}
