/** The naming server's view of the storage servers: opaque remote references and the
    remote calls it issues through them. The transport itself is not modelled; a remote
    reference is identified by the endpoint it denotes. */
module Remote {
  import opened Paths

  /** A storage server's client-facing (data-plane) reference. */
  datatype Storage = Storage(address: nat)

  /** A storage server's command (control-plane) reference. */
  datatype Command = Command(address: nat)

  /** A remote call issued by the naming server to a storage server's command interface. */
  datatype RemoteCall =
    | Create(target: Command, path: Path)
    | Delete(target: Command, path: Path)
    | Copy(target: Command, path: Path, source: Storage)

  /** What a remote call came back with: its boolean result, or an RMIException. */
  datatype Outcome = Returned(value: bool) | NetworkFailure

  /** The outcomes of the successive remote calls of one operation: call number i
      (counting from 0) comes back with oracle(i). */
  type Oracle = nat -> Outcome
}
