/**
 * `getBlob`: decide whether a tree entry is a rule file, fetch and decode it,
 * and drop the first `rules:\n` so that the aggregator can supply its own.
 */
module Blob {
  import opened Wrappers
  import opened GoStd
  import opened GitHub

  /** The top-level key line `rules:\n` that every rule file starts with. */
  const Header: seq<byte> := AsciiBytes("rules:\n")

  lemma HeaderLength()
    ensures |Header| == 7
  {
  }

  /** Only blobs whose path ends in `.yaml` are fetched. */
  predicate Eligible(e: TreeEntry) {
    e.GetType() == "blob" && HasSuffix(e.GetPath(), ".yaml")
  }

  /** `bytes.Replace(payload, []byte("rules:\n"), []byte(""), 1)`. */
  function StripHeader(payload: seq<byte>): (r: Option<seq<byte>>) {
    ReplaceFirst(payload, Header, [])
  }

  /** What `getBlob` returns. */
  datatype BlobReply =
    | NoContent                    // (nil, nil)
    | Failed(error: Error)         // (nil, err)
    | Content(payload: seq<byte>)  // (payload, nil) with a non-nil payload

  /**
   * Fetch the blob URL, decode its JSON envelope, then base64-decode the
   * content. Its promises are stated about `GetBlob` below.
   */
  function Download(url: string, gh: Remote): (r: Result<seq<byte>>)
  {
    match gh.httpGet(url)
    case Err(e) => Err(e)
    case Ok(body) => gh.decodeBase64(gh.decodeEnvelope(body).content)
  }

  function GetBlob(e: TreeEntry, gh: Remote): (reply: BlobReply)
    ensures !Eligible(e) ==> reply == NoContent
    ensures Eligible(e) ==> (reply.Failed? <==> Download(e.GetURL(), gh).Err?)
    ensures reply.Failed? ==> reply.error == Download(e.GetURL(), gh).error
    ensures reply.Content? ==>
              Eligible(e) && Download(e.GetURL(), gh).Ok? &&
              reply.payload == Elems(StripHeader(Download(e.GetURL(), gh).value))
    ensures Eligible(e) && Download(e.GetURL(), gh).Ok? ==>
              (reply.Content? <==> |Download(e.GetURL(), gh).value| > 0)
  {
    if !Eligible(e) then NoContent
    else
      match Download(e.GetURL(), gh)
      case Err(err) => Failed(err)
      case Ok(payload) =>
        match StripHeader(payload)
        case None => NoContent
        case Some(stripped) => Content(stripped)
  }

  /** A failed HTTP request is reported as a failure carrying its error. */
  lemma HttpFailureIsReported(e: TreeEntry, gh: Remote)
    requires Eligible(e) && gh.httpGet(e.GetURL()).Err?
    ensures GetBlob(e, gh) == Failed(gh.httpGet(e.GetURL()).error)
  {
  }

  /**
   * Only the envelope's `content` is read: replacing the JSON decoder by any
   * decoder that yields the same `content` (whatever `encoding`, `sha`,
   * `size` and the other fields say) leaves the reply unchanged.
   */
  lemma EnvelopeContentOnly(e: TreeEntry, gh: Remote, decode: seq<byte> -> BlobEnvelope)
    requires forall body :: decode(body).content == gh.decodeEnvelope(body).content
    ensures GetBlob(e, gh.(decodeEnvelope := decode)) == GetBlob(e, gh)
  {
  }

  /** A blob whose content is not valid base64 is reported as a failure. */
  lemma DecodeFailureIsReported(e: TreeEntry, gh: Remote)
    requires Eligible(e) && gh.httpGet(e.GetURL()).Ok?
    requires gh.decodeBase64(gh.decodeEnvelope(gh.httpGet(e.GetURL()).value).content).Err?
    ensures GetBlob(e, gh) ==
            Failed(gh.decodeBase64(gh.decodeEnvelope(gh.httpGet(e.GetURL()).value).content).error)
  {
  }

  /** An ineligible entry is answered without asking the remote anything. */
  lemma IneligibleTouchesNoRemote(e: TreeEntry, gh1: Remote, gh2: Remote)
    requires !Eligible(e)
    ensures GetBlob(e, gh1) == GetBlob(e, gh2) == NoContent
  {
  }

  /** A payload without `rules:\n` passes through unchanged. */
  lemma StripHeaderUnchanged(payload: seq<byte>)
    requires NoOccurrence(payload, Header)
    ensures Elems(StripHeader(payload)) == payload
  {
  }

  /**
   * A payload with `rules:\n` loses exactly its first occurrence, wherever it
   * is: seven bytes fewer, and the rest intact on both sides of the cut.
   */
  lemma StripHeaderRemovesFirst(payload: seq<byte>, j: int)
    requires FirstOccurrence(payload, Header, j)
    ensures StripHeader(payload) == Some(payload[..j] + payload[j + |Header|..])
    ensures |StripHeader(payload).value| == |payload| - 7
    ensures var r := StripHeader(payload).value;
            j <= |r| && payload == r[..j] + Header + r[j..]
  {
    HeaderLength();
    ReplaceFirstRemovesOne(payload, Header, j);
    assert ReplaceFirst(payload, Header, []) == Some(payload[..j] + [] + payload[j + |Header|..]);
    assert payload[..j] + [] + payload[j + |Header|..] == payload[..j] + payload[j + |Header|..];
  }

  /** A rule file that starts with its header keeps everything after it. */
  lemma {:induction false} StripLeadingHeader(body: seq<byte>)
    ensures StripHeader(Header + body) == Some(body)
  {
    var s := Header + body;
    assert s[0..|Header|] == Header;
    assert FirstOccurrence(s, Header, 0);
    assert ReplaceFirst(s, Header, []) == Some(s[..0] + [] + s[0 + |Header|..]);
    assert s[..0] + [] + s[0 + |Header|..] == body;
  }

  /**
   * The occurrence removed need not be at the start: a file with a line before
   * its header loses the header from the middle.
   */
  lemma StripInsideDocument()
    ensures StripHeader(AsciiBytes("version: 1\nrules:\n- id: 1\n"))
            == Some(AsciiBytes("version: 1\n- id: 1\n"))
  {
    var s := AsciiBytes("version: 1\nrules:\n- id: 1\n");
    HeaderLength();
    assert s[11..18] == Header;
    forall m | 0 <= m < 11 ensures !OccursAt(s, Header, m) {
      assert s[m] != Header[0] || s[m + 1] != Header[1];
      assert s[m..m + 7][0] == s[m] && s[m..m + 7][1] == s[m + 1];
    }
    assert FirstOccurrence(s, Header, 11);
    assert s[..11] + [] + s[18..] == AsciiBytes("version: 1\n- id: 1\n");
  }

  /** Stripping is not idempotent: a doubled header loses only one copy. */
  lemma StripOnlyOnce()
    ensures StripHeader(Header + Header) == Some(Header)
  {
    StripLeadingHeader(Header);
  }
}
