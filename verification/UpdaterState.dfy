/** What the updater remembers: which image it last put into which directory, and a hash of what it put there. */
module UpdaterState {
  import opened Options

  type Digest = string

  /** An image string after parsing; a malformed one does not parse. */
  datatype Image = Tagged(repo: string, tag: string) | Digested(repo: string, digest: Digest) | Malformed

  datatype ArtifactState = ArtifactState(imageDigest: Digest, directoryDigest: Digest)

  datatype State = State(version: string, artifactStates: map<string, ArtifactState>)

  function Key(directory: string, repo: string): string
  {
    "(" + directory + "," + repo + ")"
  }

  function GetArtifactState(s: State, directory: string, repo: string): Option<ArtifactState>
  {
    var k := Key(directory, repo);
    if k in s.artifactStates then Some(s.artifactStates[k]) else None
  }

  /** Only an image with a digest can be recorded; its record replaces the one of its repository and no other. */
  function SetArtifactState(s: State, directory: string, image: Image, dirHash: Digest): (r: Option<State>)
    ensures r.Some? <==> image.Digested?
    ensures r.Some? ==> GetArtifactState(r.value, directory, image.repo) == Some(ArtifactState(image.digest, dirHash))
    ensures r.Some? ==> forall repo :: repo != image.repo ==>
      GetArtifactState(r.value, directory, repo) == GetArtifactState(s, directory, repo)
  {
    if !image.Digested? then None
    else
      assert forall repo :: Key(directory, repo) == Key(directory, image.repo) ==> repo == image.repo by {
        forall repo | Key(directory, repo) == Key(directory, image.repo)
          ensures repo == image.repo
        {
          KeyTellsRepo(directory, repo, image.repo);
        }
      }
      var entry := ArtifactState(image.digest, dirHash);
      Some(s.(artifactStates := s.artifactStates[Key(directory, image.repo) := entry]))
  }

  /** Within one directory different repositories have different keys. */
  lemma KeyTellsRepo(directory: string, a: string, b: string)
    requires Key(directory, a) == Key(directory, b)
    ensures a == b
  {
    var k := Key(directory, a);
    var n := 1 + |directory| + 1;
    assert k[n..|k| - 1] == a;
    assert k[n..|k| - 1] == b;
  }

  /** Across directories keys clash exactly if a comma of the longer path can be taken for the border. */
  lemma KeysClash(a: string, x: string, b: string, y: string)
    requires |a| < |b|
    ensures Key(a, x) == Key(b, y) <==> exists s :: b == a + "," + s && x == s + "," + y
  {
    var k, l := Key(a, x), Key(b, y);
    if k == l {
      var s := b[|a| + 1..];
      assert k[1..|a| + 1] == a && l[1..|b| + 1] == b;
      assert k[|a| + 1] == ',' && l[|b| + 1] == ',';
      assert b[..|a|] == a && b[|a|] == ',';
      assert b == a + "," + s;
      assert k[|a| + 2..|k| - 1] == x && l[|b| + 2..|l| - 1] == y;
      assert l[|a| + 2..|l| - 1] == s + "," + y;
      assert x == s + "," + y;
    }
    if s :| b == a + "," + s && x == s + "," + y {
      assert Key(b, y) == "(" + (a + "," + s) + "," + y + ")";
      assert Key(a, x) == "(" + a + "," + (s + "," + y) + ")";
      assert k == l;
    }
  }

  /** So they determine directory and repository as long as no repository has a comma. */
  lemma KeysTell(a: string, x: string, b: string, y: string)
    requires ',' !in x && ',' !in y
    ensures Key(a, x) == Key(b, y) <==> a == b && x == y
  {
    CommaIn(x);
    CommaIn(y);
    if |a| < |b| {
      KeysClash(a, x, b, y);
    } else if |b| < |a| {
      KeysClash(b, y, a, x);
    } else if Key(a, x) == Key(b, y) {
      assert Key(a, x)[1..|a| + 1] == a && Key(b, y)[1..|b| + 1] == b;
      KeyTellsRepo(a, x, y);
    }
  }

  lemma CommaIn(x: string)
    requires ',' !in x
    ensures forall s, y :: x != s + "," + y
  {
    forall s: string, y: string
      ensures x != s + "," + y
    {
      assert (s + "," + y)[|s|] == ',';
    }
  }

  /** A host name with a comma is enough: two directories share the record of two repositories. */
  lemma KeysCanClash(dirHash: Digest, digest: Digest)
    ensures
      var s := SetArtifactState(State("2", map[]), "a,b", Digested("c/x", digest), dirHash);
      s.Some? && GetArtifactState(s.value, "a", "b,c/x") == Some(ArtifactState(digest, dirHash))
  {
    assert Key("a,b", "c/x") == Key("a", "b,c/x");
  }
}
