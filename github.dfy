/**
 * What the aggregator receives from outside: the go-github value types it
 * reads (with their `nil`-safe getters), the blob envelope of the GitHub API,
 * and the remote calls themselves, passed in as functions so that each
 * network answer is an input of the model.
 */
module GitHub {
  import opened Wrappers
  import opened GoStd

  /** go-github `GitObject`: the commit a reference points at. */
  datatype GitObject = GitObject(sha: Option<string>) {
    /** `GetSHA`: the empty string when the field is absent. */
    function GetSHA(): string {
      if sha.Some? then sha.value else ""
    }
  }

  /** go-github `Reference` as returned by `ListMatchingRefs`. */
  datatype Reference = Reference(ref: Option<string>, target: Option<GitObject>) {
    /** `GetObject().GetSHA()`: a missing object also yields the empty string. */
    function ObjectSHA(): string {
      if target.Some? then target.value.GetSHA() else ""
    }
  }

  /** go-github `TreeEntry`: one node of the flattened repository listing. */
  datatype TreeEntry = TreeEntry(path: Option<string>, kind: Option<string>, url: Option<string>) {
    function GetPath(): string { if path.Some? then path.value else "" }
    function GetType(): string { if kind.Some? then kind.value else "" }
    function GetURL(): string { if url.Some? then url.value else "" }
  }

  /** go-github `Tree`; the entries keep the order the API returned them in. */
  datatype Tree = Tree(sha: Option<string>, entries: seq<TreeEntry>)

  /** The `blob` struct that the JSON body of a blob URL is decoded into. */
  datatype BlobEnvelope = BlobEnvelope(
    sha: string, nodeId: string, size: int, url: string, content: string, encoding: string)

  /**
   * The remote calls. `decodeEnvelope` gives the struct as the JSON decoder
   * leaves it: the decoder's error is never looked at, so a body that is not a
   * blob envelope simply yields whatever fields (possibly all zero) it filled.
   */
  datatype Remote = Remote(
    listMatchingRefs: (string, string) -> Result<seq<Reference>>,
    getTree: (string, string, string, bool) -> Result<Tree>,
    httpGet: string -> Result<seq<byte>>,
    decodeEnvelope: seq<byte> -> BlobEnvelope,
    decodeBase64: string -> Result<seq<byte>>)
}
