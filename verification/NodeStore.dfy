/** The caller-owned byte store behind an index: append-only, and free to fail at any call. */
module Store {
  import opened Base
  import opened RadixGraph

  /** The crate's `IndexError`. */
  datatype IndexError = Codec(error: CodecError) | StoreUnavailable

  type IndexResult<+T> = Result<T, IndexError>

  /** The `From<CodecError>` conversion behind `?`. */
  function Lift<T>(r: CodecResult<T>): IndexResult<T> {
    match r
    case Ok(v) => Ok(v)
    case Err(e) => Err(Codec(e))
  }

  class NodeStore {
    var nodes: Nodes
    /** A reliable store serves every stored node and accepts every insertion that does not contradict one. */
    const reliable: bool
    var readCount: nat
    var insertCount: nat

    constructor (reliable: bool)
      ensures nodes == map[] && this.reliable == reliable && readCount == insertCount == 0
    {
      this.nodes, this.reliable, this.readCount, this.insertCount := map[], reliable, 0, 0;
    }

    method Read(id: Digest) returns (r: IndexResult<Bytes>)
      modifies `readCount
      ensures readCount == old(readCount) + 1
      ensures r == Err(StoreUnavailable) || (id in nodes && r == Ok(nodes[id]))
      ensures reliable && id in nodes ==> r.Ok?
    {
      readCount := readCount + 1;
      var faulty: bool;
      if id !in nodes {
        return Err(StoreUnavailable);
      }
      faulty := *;
      if !reliable && faulty {
        return Err(StoreUnavailable);
      }
      return Ok(nodes[id]);
    }

    /** A failing insertion may or may not have stored the node. */
    method Insert(id: Digest, bytes: Bytes) returns (r: IndexResult<()>)
      modifies `nodes, `insertCount
      ensures insertCount == old(insertCount) + 1
      ensures Extends(old(nodes), nodes)
      ensures nodes == old(nodes) || nodes == old(nodes)[id := bytes]
      ensures r == Ok(()) || r == Err(StoreUnavailable)
      ensures r.Ok? ==> id in nodes && nodes[id] == bytes
      ensures reliable && (id in old(nodes) ==> old(nodes)[id] == bytes) ==> r.Ok?
    {
      insertCount := insertCount + 1;
      var faulty: bool;
      if id in nodes && nodes[id] != bytes {
        return Err(StoreUnavailable);
      }
      faulty := *;
      if !reliable && faulty {
        return Err(StoreUnavailable);
      }
      nodes := nodes[id := bytes];
      faulty := *;
      if !reliable && faulty {
        return Err(StoreUnavailable);
      }
      return Ok(());
    }
  }
}
