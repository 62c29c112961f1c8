/**
 * The `ruleset` record and its two operations: `getLatestSHA`, which picks
 * the revision to read, and `getRules`, which walks the recursive tree and
 * builds one rule document from every `.yaml` blob in tree order.
 */
module Rules {
  import opened Wrappers
  import opened GoStd
  import opened GitHub
  import opened Blob

  /** A registered project and the repository its rules live in. */
  datatype Ruleset = Ruleset(project: string, owner: string, repo: string)

  /** What `getLatestSHA` returns: a revision and a possibly-nil error. */
  datatype ShaReply = ShaReply(sha: string, err: Option<Error>)

  /**
   * The first matching reference's commit. A failed listing gives `""` and
   * its error; an empty listing gives `""` and a nil error, because the
   * error being returned on that path is the listing's, which is nil.
   */
  function GetLatestSha(r: Ruleset, gh: Remote): (reply: ShaReply)
    ensures reply.err.Some? <==> gh.listMatchingRefs(r.owner, r.repo).Err?
    ensures reply.err.Some? ==> reply.err.value == gh.listMatchingRefs(r.owner, r.repo).error
    ensures reply.err.Some? ==> reply.sha == ""
    ensures gh.listMatchingRefs(r.owner, r.repo) == Ok([]) ==> reply == ShaReply("", None)
    ensures var refs := gh.listMatchingRefs(r.owner, r.repo);
            refs.Ok? && |refs.value| > 0 ==> reply == ShaReply(refs.value[0].ObjectSHA(), None)
  {
    match gh.listMatchingRefs(r.owner, r.repo)
    case Err(e) => ShaReply("", Some(e))
    case Ok(refs) =>
      if |refs| < 1 then ShaReply("", None)
      else ShaReply(refs[0].ObjectSHA(), None)
  }

  /**
   * A non-empty revision always comes from a successful listing: it is the
   * commit of the first reference returned.
   */
  lemma LatestShaIsListed(r: Ruleset, gh: Remote)
    requires GetLatestSha(r, gh).sha != ""
    ensures gh.listMatchingRefs(r.owner, r.repo).Ok?
    ensures var refs := gh.listMatchingRefs(r.owner, r.repo).value;
            |refs| > 0 && refs[0].ObjectSHA() == GetLatestSha(r, gh).sha
    ensures exists ref :: ref in gh.listMatchingRefs(r.owner, r.repo).value &&
              ref.ObjectSHA() == GetLatestSha(r, gh).sha
  {
    var refs := gh.listMatchingRefs(r.owner, r.repo).value;
    assert refs[0] in refs;
  }

  /** The bytes one tree entry adds to the document: its payload, if non-nil. */
  function Contribution(e: TreeEntry, gh: Remote): (b: seq<byte>)
    ensures !Eligible(e) || Download(e.GetURL(), gh).Err? ==> b == []
    ensures Eligible(e) && Download(e.GetURL(), gh).Ok? ==>
              b == Elems(StripHeader(Download(e.GetURL(), gh).value))
  {
    match GetBlob(e, gh)
    case Content(payload) => payload
    case _ => []
  }

  /** `Contribution` as a function value, so that the list lemmas below apply. */
  function Contributor(gh: Remote): (f: TreeEntry -> seq<byte>) {
    e => Contribution(e, gh)
  }

  /** The contributions of a run of tree entries, in tree order. */
  function Contributions(entries: seq<TreeEntry>, gh: Remote): (b: seq<byte>)
  {
    FlatMap(entries, Contributor(gh))
  }

  /** The document `getRules` builds from a tree: the header, then every contribution. */
  function Aggregate(entries: seq<TreeEntry>, gh: Remote): (doc: seq<byte>)
    ensures |Header| <= |doc| && doc[..|Header|] == Header
  {
    Header + Contributions(entries, gh)
  }

  /**
   * The outcome `getRules` promises: the revision's own error is ignored (the
   * tree is then asked for with `""`), a tree error is passed on, and
   * otherwise the aggregate of the tree's entries is returned.
   */
  function RulesOf(r: Ruleset, gh: Remote): (rules: Result<seq<byte>>)
    ensures var tree := gh.getTree(r.owner, r.repo, GetLatestSha(r, gh).sha, true);
            (rules.Err? <==> tree.Err?) &&
            (tree.Err? ==> rules.error == tree.error) &&
            (tree.Ok? ==> rules.value == Aggregate(tree.value.entries, gh))
    ensures rules.Ok? ==> |Header| <= |rules.value| && rules.value[..|Header|] == Header
  {
    match gh.getTree(r.owner, r.repo, GetLatestSha(r, gh).sha, true)
    case Err(e) => Err(e)
    case Ok(tree) => Ok(Aggregate(tree.entries, gh))
  }

  /** `getRules`: grow the buffer entry by entry, skipping every nil payload. */
  method GetRules(r: Ruleset, gh: Remote) returns (rules: Result<seq<byte>>)
    ensures rules == RulesOf(r, gh)
  {
    var latest := GetLatestSha(r, gh);  // its error is discarded
    var tree := gh.getTree(r.owner, r.repo, latest.sha, true);
    if tree.Err? {
      return Err(tree.error);
    }
    var entries := tree.value.entries;
    var yamlRaw := Header;
    assert entries[..0] == [];
    for i := 0 to |entries|
      invariant yamlRaw == Aggregate(entries[..i], gh)
    {
      var blob := GetBlob(entries[i], gh);  // its error is discarded
      if blob.Content? {
        yamlRaw := yamlRaw + blob.payload;
      }
      AggregateSnoc(entries[..i], entries[i], gh);
      PrefixSnoc(entries, i);
    }
    assert entries[..|entries|] == entries;
    return Ok(yamlRaw);
  }

  lemma SeqAssoc<T>(x: seq<T>, y: seq<T>, z: seq<T>)
    ensures x + (y + z) == (x + y) + z
  {
  }

  lemma PrefixSnoc<T>(s: seq<T>, i: nat)
    requires i < |s|
    ensures s[..i + 1] == s[..i] + [s[i]]
  {
  }

  /** Contributions of consecutive runs concatenate: tree order is kept. */
  lemma ContributionsAppend(a: seq<TreeEntry>, b: seq<TreeEntry>, gh: Remote)
    ensures Contributions(a + b, gh) == Contributions(a, gh) + Contributions(b, gh)
  {
    FlatMapAppend(a, b, Contributor(gh));
  }

  /** Appending one entry appends its contribution. */
  lemma ContributionsSnoc(a: seq<TreeEntry>, e: TreeEntry, gh: Remote)
    ensures Contributions(a + [e], gh) == Contributions(a, gh) + Contribution(e, gh)
  {
    FlatMapSnoc(a, e, Contributor(gh));
  }

  /** Appending one entry to the tree appends its contribution to the document. */
  lemma AggregateSnoc(a: seq<TreeEntry>, e: TreeEntry, gh: Remote)
    ensures Aggregate(a + [e], gh) == Aggregate(a, gh) + Contribution(e, gh)
  {
    ContributionsSnoc(a, e, gh);
    var done, last := Contributions(a, gh), Contribution(e, gh);
    assert Aggregate(a + [e], gh) == Header + (done + last);
    SeqAssoc(Header, done, last);
  }

  /** When no entry contributes anything, the document is exactly `rules:\n`. */
  lemma AggregateOfNothing(entries: seq<TreeEntry>, gh: Remote)
    requires forall i :: 0 <= i < |entries| ==> Contribution(entries[i], gh) == []
    ensures Aggregate(entries, gh) == Header
  {
    FlatMapOfNothing(entries, Contributor(gh));
  }

  /** An entry that yields no payload (ineligible, failed or empty) can be dropped. */
  lemma SkipEntry(a: seq<TreeEntry>, e: TreeEntry, b: seq<TreeEntry>, gh: Remote)
    requires !GetBlob(e, gh).Content?
    ensures Aggregate(a + [e] + b, gh) == Aggregate(a + b, gh)
  {
    FlatMapSkip(a, e, b, Contributor(gh));
  }

  /**
   * Failure isolation: if entry `j` fails under `gh2` while every other entry
   * answers as under `gh1`, the document is what `gh1` gives for the other
   * entries, in order, with entry `j`'s bytes simply absent.
   */
  lemma FailureIsolated(entries: seq<TreeEntry>, j: nat, gh1: Remote, gh2: Remote)
    requires j < |entries|
    requires forall i :: 0 <= i < |entries| && i != j ==>
               GetBlob(entries[i], gh2) == GetBlob(entries[i], gh1)
    requires GetBlob(entries[j], gh2).Failed?
    ensures Aggregate(entries, gh2) ==
            Header + Contributions(entries[..j], gh1) + Contributions(entries[j + 1..], gh1)
  {
    forall i | 0 <= i < |entries| && i != j
      ensures Contributor(gh2)(entries[i]) == Contributor(gh1)(entries[i])
    {
      assert Contribution(entries[i], gh2) == Contribution(entries[i], gh1);
    }
    assert Contributor(gh2)(entries[j]) == [];
    FlatMapIsolated(entries, j, Contributor(gh1), Contributor(gh2));
    SeqAssoc(Header, Contributions(entries[..j], gh1), Contributions(entries[j + 1..], gh1));
  }

  /** Entries that answer alike under two remotes contribute alike. */
  lemma SameAnswersSameContributions(entries: seq<TreeEntry>, gh1: Remote, gh2: Remote)
    requires forall i :: 0 <= i < |entries| ==> GetBlob(entries[i], gh1) == GetBlob(entries[i], gh2)
    ensures Contributions(entries, gh1) == Contributions(entries, gh2)
  {
    forall i | 0 <= i < |entries|
      ensures Contributor(gh1)(entries[i]) == Contributor(gh2)(entries[i])
    {
      assert Contribution(entries[i], gh1) == Contribution(entries[i], gh2);
    }
    FlatMapPointwise(entries, Contributor(gh1), Contributor(gh2));
  }

  /** Concatenation of a sequence of byte strings. */
  function Flatten(parts: seq<seq<byte>>): (b: seq<byte>)
  {
    if |parts| == 0 then [] else parts[0] + Flatten(parts[1..])
  }

  /**
   * Well-formed rule files merge as intended: when every entry is a `.yaml`
   * blob whose decoded content is `rules:\n` followed by a body, the document
   * is one `rules:\n` followed by all bodies in tree order.
   */
  lemma {:induction false} WellFormedFilesMerge(entries: seq<TreeEntry>, bodies: seq<seq<byte>>, gh: Remote)
    requires |bodies| == |entries|
    requires forall i :: 0 <= i < |entries| ==>
               Eligible(entries[i]) && Download(entries[i].GetURL(), gh) == Ok(Header + bodies[i])
    ensures Aggregate(entries, gh) == Header + Flatten(bodies)
  {
    BodiesContributed(entries, bodies, gh);
  }

  lemma {:induction false} BodiesContributed(entries: seq<TreeEntry>, bodies: seq<seq<byte>>, gh: Remote)
    requires |bodies| == |entries|
    requires forall i :: 0 <= i < |entries| ==>
               Eligible(entries[i]) && Download(entries[i].GetURL(), gh) == Ok(Header + bodies[i])
    ensures Contributions(entries, gh) == Flatten(bodies)
  {
    if |entries| > 0 {
      StripLeadingHeader(bodies[0]);
      assert Contribution(entries[0], gh) == bodies[0];
      assert forall i :: 0 <= i < |entries[1..]| ==>
               entries[1..][i] == entries[i + 1] && bodies[1..][i] == bodies[i + 1];
      BodiesContributed(entries[1..], bodies[1..], gh);
    }
  }

  // Order-keeping concatenation over any per-element contribution `f`.

  /** The concatenation of `f(x)` over `xs`, in order. */
  function FlatMap<T>(xs: seq<T>, f: T -> seq<byte>): (r: seq<byte>)
  {
    if |xs| == 0 then [] else f(xs[0]) + FlatMap(xs[1..], f)
  }

  lemma {:induction false} FlatMapAppend<T>(a: seq<T>, b: seq<T>, f: T -> seq<byte>)
    ensures FlatMap(a + b, f) == FlatMap(a, f) + FlatMap(b, f)
  {
    if |a| == 0 {
      assert a + b == b;
    } else {
      assert (a + b)[0] == a[0];
      assert (a + b)[1..] == a[1..] + b;
      FlatMapAppend(a[1..], b, f);
      SeqAssoc(f(a[0]), FlatMap(a[1..], f), FlatMap(b, f));
    }
  }

  lemma FlatMapSnoc<T>(a: seq<T>, x: T, f: T -> seq<byte>)
    ensures FlatMap(a + [x], f) == FlatMap(a, f) + f(x)
  {
    FlatMapAppend(a, [x], f);
    assert FlatMap([x], f) == f(x) + FlatMap([x][1..], f);
    assert [x][1..] == [];
  }

  lemma {:induction false} FlatMapOfNothing<T>(xs: seq<T>, f: T -> seq<byte>)
    requires forall i :: 0 <= i < |xs| ==> f(xs[i]) == []
    ensures FlatMap(xs, f) == []
  {
    if |xs| > 0 {
      assert f(xs[0]) == [];
      assert forall i :: 0 <= i < |xs[1..]| ==> xs[1..][i] == xs[i + 1];
      FlatMapOfNothing(xs[1..], f);
    }
  }

  lemma FlatMapSkip<T>(a: seq<T>, x: T, b: seq<T>, f: T -> seq<byte>)
    requires f(x) == []
    ensures FlatMap(a + [x] + b, f) == FlatMap(a + b, f)
  {
    FlatMapAppend(a + [x], b, f);
    FlatMapSnoc(a, x, f);
    FlatMapAppend(a, b, f);
  }

  lemma {:induction false} FlatMapPointwise<T>(xs: seq<T>, f: T -> seq<byte>, g: T -> seq<byte>)
    requires forall i :: 0 <= i < |xs| ==> f(xs[i]) == g(xs[i])
    ensures FlatMap(xs, f) == FlatMap(xs, g)
  {
    if |xs| > 0 {
      assert f(xs[0]) == g(xs[0]);
      assert forall i :: 0 <= i < |xs[1..]| ==> xs[1..][i] == xs[i + 1];
      FlatMapPointwise(xs[1..], f, g);
    }
  }

  lemma FlatMapIsolated<T>(xs: seq<T>, j: nat, f: T -> seq<byte>, g: T -> seq<byte>)
    requires j < |xs|
    requires forall i :: 0 <= i < |xs| && i != j ==> g(xs[i]) == f(xs[i])
    requires g(xs[j]) == []
    ensures FlatMap(xs, g) == FlatMap(xs[..j], f) + FlatMap(xs[j + 1..], f)
  {
    var pre, x, post := xs[..j], xs[j], xs[j + 1..];
    calc {
      FlatMap(xs, g);
      { SplitAt(xs, j); }
      FlatMap(pre + [x] + post, g);
      { FlatMapSkip(pre, x, post, g); }
      FlatMap(pre + post, g);
      { FlatMapAppend(pre, post, g); }
      FlatMap(pre, g) + FlatMap(post, g);
      { PrefixAgrees(xs, j, f, g); SuffixAgrees(xs, j, f, g); }
      FlatMap(pre, f) + FlatMap(post, f);
    }
  }

  lemma SplitAt<T>(xs: seq<T>, j: nat)
    requires j < |xs|
    ensures xs == xs[..j] + [xs[j]] + xs[j + 1..]
  {
  }

  lemma PrefixAgrees<T>(xs: seq<T>, j: nat, f: T -> seq<byte>, g: T -> seq<byte>)
    requires j <= |xs|
    requires forall i :: 0 <= i < j ==> g(xs[i]) == f(xs[i])
    ensures FlatMap(xs[..j], g) == FlatMap(xs[..j], f)
  {
    var s := xs[..j];
    forall i | 0 <= i < |s| ensures g(s[i]) == f(s[i]) {
      assert s[i] == xs[i];
    }
    FlatMapPointwise(s, g, f);
  }

  lemma SuffixAgrees<T>(xs: seq<T>, j: nat, f: T -> seq<byte>, g: T -> seq<byte>)
    requires j < |xs|
    requires forall i :: j < i < |xs| ==> g(xs[i]) == f(xs[i])
    ensures FlatMap(xs[j + 1..], g) == FlatMap(xs[j + 1..], f)
  {
    var s := xs[j + 1..];
    forall i | 0 <= i < |s| ensures g(s[i]) == f(s[i]) {
      assert s[i] == xs[j + 1 + i];
    }
    FlatMapPointwise(s, g, f);
  }
}
