/** Resumable download: a partial file is completed, verified and then moved. */
module Fetcher {
  import opened Bytes
  import opened Options

  datatype Descriptor = Descriptor(size: nat, digest: Bytes)

  /** Why an attempt ended. */
  datatype Outcome = Completed | TooLarge | SeekFailed | Interrupted | UnexpectedEof | UnexpectedDigest

  /** A remote blob as served in one attempt: its bytes need not be the right ones. */
  datatype Remote = Remote(content: Bytes, seekable: bool)

  /** Writing into a file overwrites in place and extends it at the end. */
  function WriteAt(file: Bytes, pos: nat, chunk: Bytes): Bytes
    requires pos <= |file|
  {
    file[..pos] + chunk + if pos + |chunk| < |file| then file[pos + |chunk|..] else []
  }

  lemma WriteMore(file: Bytes, pos: nat, a: Bytes, b: Bytes)
    requires pos <= |file|
    ensures WriteAt(WriteAt(file, pos, a), pos + |a|, b) == WriteAt(file, pos, a + b)
  {
    assert WriteAt(file, pos, a)[..pos + |a|] == file[..pos] + a;
    assert file[..pos] + a + b == file[..pos] + (a + b);
  }

  /** What an attempt that is not cut off puts together: the leftover is continued only where the stream can seek. */
  function Assembled(leftover: Bytes, size: nat, remote: Remote): Bytes
    requires |leftover| <= size
  {
    if leftover == [] then
      if size == 0 then [] else remote.content
    else if !remote.seekable then remote.content
    else if |leftover| == size || |remote.content| < |leftover| then leftover
    else leftover + remote.content[|leftover|..]
  }

  function Leftover(partial: Option<Bytes>): Bytes
  {
    if partial.Some? then partial.value else []
  }

  /** Whether the leftover is such that an attempt that is not cut off gets to the end. */
  predicate Good(leftover: Bytes, expected: Descriptor, remote: Remote, sha: Bytes -> Bytes)
  {
    && |leftover| <= expected.size
    && (remote.seekable ==> |leftover| <= |remote.content|)
    && |Assembled(leftover, expected.size, remote)| == expected.size
    && sha(Assembled(leftover, expected.size, remote)) == expected.digest
  }

  /**
   What goes wrong in an attempt: nothing, the copy breaks off once `n` bytes are in the file (before it begins, if 0),
   or the file is complete but not moved.  A copy of at most `n` bytes is over before it can break off.
   */
  datatype Fault = Never | After(n: nat) | AtMove

  /** What an attempt copies unless it is cut off: nothing where it fails before or has all of it. */
  function ToCopy(leftover: Bytes, size: nat, remote: Remote): Bytes
  {
    if |leftover| > size || size == 0 then []
    else if leftover == [] || !remote.seekable then remote.content
    else if |leftover| == size || |remote.content| < |leftover| then []
    else remote.content[|leftover|..]
  }

  /** The fault strikes while `all` is copied. */
  predicate Breaks(fault: Fault, all: Bytes)
  {
    fault.After? && fault.n < |all|
  }

  /** What of it gets into the file. */
  function Copied(all: Bytes, fault: Fault): (r: Bytes)
    ensures !Breaks(fault, all) ==> r == all
  {
    if Breaks(fault, all) then all[..fault.n] else all
  }

  /** The file after an attempt: the leftover, overwritten from the start where the stream cannot seek, or continued. */
  function FileAfter(leftover: Bytes, size: nat, remote: Remote, fault: Fault): Bytes
  {
    WriteAt(leftover, if remote.seekable then |leftover| else 0, Copied(ToCopy(leftover, size, remote), fault))
  }

  /** Only a fault cuts an attempt off: while bytes are still to be copied, or once everything is right. */
  predicate CutOff(leftover: Bytes, expected: Descriptor, remote: Remote, sha: Bytes -> Bytes, fault: Fault)
  {
    match fault
    case Never => false
    case After(n) => Breaks(fault, ToCopy(leftover, expected.size, remote))
    case AtMove => Good(leftover, expected, remote, sha)
  }

  class Ingester {
    const expected: Descriptor
    const sha: Bytes -> Bytes
    var partial: Option<Bytes>    // the file in the download directory
    var completed: Option<Bytes>  // the file in the directory of completed downloads

    /** Whatever is in the directory of completed downloads is what was asked for. */
    ghost predicate Valid()
      reads this
    {
      completed.Some? ==> |completed.value| == expected.size && sha(completed.value) == expected.digest
    }

    constructor (expected: Descriptor, sha: Bytes -> Bytes, leftover: Option<Bytes>)
      ensures Valid() && partial == leftover && this.expected == expected && this.sha == sha
    {
      this.expected, this.sha, partial, completed := expected, sha, leftover, None;
    }

    /** Copies the stream to the file from `pos` and to the hash, in portions of any size, or breaks off. */
    method CopyAll(stream: Bytes, pos: nat, hashed0: Bytes, fault: Fault) returns (hashed: Bytes, interrupted: bool)
      requires partial.Some? && pos <= |partial.value|
      modifies this`partial
      ensures interrupted <==> Breaks(fault, stream)
      ensures partial == Some(WriteAt(old(partial).value, pos, Copied(stream, fault)))
      ensures hashed == hashed0 + Copied(stream, fault)
    {
      var i := 0;
      hashed := hashed0;
      ghost var file := partial.value;
      assert stream[..0] == [] && WriteAt(file, pos, []) == file;
      while i < |stream|
        invariant 0 <= i <= |stream| && (Breaks(fault, stream) ==> i <= fault.n)
        invariant partial == Some(WriteAt(file, pos, stream[..i])) && hashed == hashed0 + stream[..i]
      {
        if fault == After(i) {
          return hashed, true;
        }
        var n :| 0 < n <= |stream| - i && (Breaks(fault, stream) ==> i + n <= fault.n);
        assert stream[..i + n] == stream[..i] + stream[i..i + n];
        assert hashed0 + stream[..i] + stream[i..i + n] == hashed0 + stream[..i + n];
        WriteMore(file, pos, stream[..i], stream[i..i + n]);
        partial := Some(WriteAt(partial.value, pos + i, stream[i..i + n]));
        hashed := hashed + stream[i..i + n];
        i := i + n;
      }
      assert stream[..|stream|] == stream;
      interrupted := false;
    }

    /** Where the stream can seek, it is moved to the end of the file and the file is hashed; else all starts from 0. */
    method HashOldContents(remote: Remote) returns (n: nat, hashed: Bytes, ok: bool)
      requires partial.Some?
      ensures ok <==> !remote.seekable || |partial.value| <= |remote.content|
      ensures ok ==> n == |hashed| <= |remote.content|
      ensures ok ==> hashed == if remote.seekable then partial.value else []
    {
      n, hashed, ok := |partial.value|, [], true;
      if n > 0 {
        if remote.seekable {
          if n > |remote.content| {
            return n, [], false;
          }
          hashed := partial.value;
        } else {
          n := 0;
        }
      }
    }

    /**
     One attempt.  It is cut off exactly by a fault; otherwise it completes exactly when the leftover and the stream
     make up the right bytes, and these are what is moved.  Otherwise the file is the leftover with what was copied.
     */
    method Ingest(remote: Remote, fault: Fault) returns (outcome: Outcome)
      requires Valid()
      modifies this
      ensures Valid()
      ensures outcome.Interrupted? <==> CutOff(Leftover(old(partial)), expected, remote, sha, fault)
      ensures outcome.Completed? <==> Good(Leftover(old(partial)), expected, remote, sha) && !outcome.Interrupted?
      ensures outcome.Completed? ==>
                partial == None && completed == Some(Assembled(Leftover(old(partial)), expected.size, remote))
      ensures !outcome.Completed? ==>
                && completed == old(completed)
                && partial == Some(FileAfter(Leftover(old(partial)), expected.size, remote, fault))
      ensures outcome.TooLarge? <==> |Leftover(old(partial))| > expected.size
      ensures outcome.SeekFailed? <==>
                remote.seekable && |remote.content| < |Leftover(old(partial))| <= expected.size
    {
      if partial == None {
        partial := Some([]);
      }
      hide Good, CutOff, FileAfter, Assembled, ToCopy, WriteAt, Breaks, Copied;
      ghost var file := partial.value;
      if |partial.value| > expected.size {
        FailsAtOnce(file, expected, remote, sha, fault);
        return TooLarge;
      }
      var n, hashed, ok := HashOldContents(remote);
      if !ok {
        FailsAtOnce(file, expected, remote, sha, fault);
        return SeekFailed;
      }
      GoesOn(file, expected, remote, sha, fault);
      if n < expected.size {
        var stream := remote.content[n..];
        var interrupted;
        hashed, interrupted := CopyAll(stream, n, hashed, fault);
        if interrupted {
          return Interrupted;
        }
        if |stream| + n != expected.size {
          return UnexpectedEof;
        }
      }
      if sha(hashed) != expected.digest {
        return UnexpectedDigest;
      }
      if fault.AtMove? {
        return Interrupted;
      }
      completed := partial;
      partial := None;
      return Completed;
    }

    /**
     Attempts until one completes.  If each of them is served the right content and the leftover is part of it, the
     download completes with just that content exactly if one of them is not cut off, given what those before it left.
     */
    method Download(remotes: seq<Remote>, faults: seq<Fault>, content: Bytes) returns (outcome: Outcome)
      requires Valid() && remotes != [] && |faults| == |remotes|
      modifies this
      ensures Valid()
      ensures outcome.Completed? ==> completed.Some?
      ensures && Leftover(old(partial)) <= content
              && |content| == expected.size && sha(content) == expected.digest
              && (forall k :: 0 <= k < |remotes| ==> remotes[k].content == content) ==>
                var gets := GetsThere(|Leftover(old(partial))|, expected.size, remotes, faults);
                if gets then outcome.Completed? && completed == Some(content) else outcome.Interrupted?
    {
      ghost var right := && Leftover(partial) <= content
                         && |content| == expected.size && sha(content) == expected.digest
                         && (forall k :: 0 <= k < |remotes| ==> remotes[k].content == content);
      outcome := Interrupted;
      var i := 0;
      while i < |remotes|
        invariant 0 <= i <= |remotes| && Valid()
        invariant i > 0 ==> !outcome.Completed?
        invariant right ==>
          && outcome.Interrupted? && Leftover(partial) <= content
          && GetsThere(|Leftover(old(partial))|, expected.size, remotes, faults)
             == GetsThere(|Leftover(partial)|, expected.size, remotes[i..], faults[i..])
      {
        if right {
          AttemptRight(Leftover(partial), expected, remotes[i], sha, faults[i]);
          assert remotes[i..][1..] == remotes[i + 1..] && faults[i..][1..] == faults[i + 1..];
        }
        outcome := Ingest(remotes[i], faults[i]);
        if outcome.Completed? {
          return;
        }
        i := i + 1;
      }
    }

    /**
     Attempts on streams that can seek, all served the right content, when only that has the expected hash: a leftover
     that is not a part of it keeps every one of them from completing.
     */
    method RetryWrong(remotes: seq<Remote>, faults: seq<Fault>, content: Bytes) returns (outcomes: seq<Outcome>)
      requires Valid() && |content| == expected.size && |faults| == |remotes|
      requires forall x: Bytes :: sha(x) == expected.digest <==> x == content
      requires forall k :: 0 <= k < |remotes| ==> remotes[k].seekable && remotes[k].content == content
      requires !(Leftover(partial) <= content)
      modifies this
      ensures Valid() && completed == old(completed) && !(Leftover(partial) <= content)
      ensures |outcomes| == |remotes| && forall k :: 0 <= k < |outcomes| ==> !outcomes[k].Completed?
    {
      outcomes := [];
      for i := 0 to |remotes|
        invariant Valid() && completed == old(completed) && !(Leftover(partial) <= content)
        invariant |outcomes| == i && forall k :: 0 <= k < i ==> !outcomes[k].Completed?
      {
        GoodExactly(Leftover(partial), expected, remotes[i], sha);
        WrongKept(Leftover(partial), expected.size, remotes[i], faults[i]);
        var outcome := Ingest(remotes[i], faults[i]);
        outcomes := outcomes + [outcome];
      }
    }
  }

  /** A prefix of the right content is never a dead end. */
  lemma PrefixGood(leftover: Bytes, expected: Descriptor, remote: Remote, sha: Bytes -> Bytes)
    requires leftover <= remote.content
    requires |remote.content| == expected.size && sha(remote.content) == expected.digest
    ensures Good(leftover, expected, remote, sha) && Assembled(leftover, expected.size, remote) == remote.content
  {
    assert remote.content == remote.content[..|leftover|] + remote.content[|leftover|..];
    assert remote.content[..|remote.content|] == remote.content;
    assert Assembled(leftover, expected.size, remote) == remote.content;
  }

  /**
   Where only the right content has the expected hash, an attempt can complete exactly if the leftover is a part of it
   or the stream cannot seek.
   */
  lemma GoodExactly(leftover: Bytes, expected: Descriptor, remote: Remote, sha: Bytes -> Bytes)
    requires |remote.content| == expected.size
    requires forall x: Bytes :: sha(x) == expected.digest <==> x == remote.content
    ensures Good(leftover, expected, remote, sha) <==>
            |leftover| <= expected.size && (remote.seekable ==> leftover <= remote.content)
  {
  }

  /** An attempt that fails at once copies nothing. */
  lemma FailsAtOnce(leftover: Bytes, expected: Descriptor, remote: Remote, sha: Bytes -> Bytes, fault: Fault)
    requires |leftover| > expected.size || (remote.seekable && |leftover| > |remote.content|)
    ensures FileAfter(leftover, expected.size, remote, fault) == leftover && !Good(leftover, expected, remote, sha)
    ensures !CutOff(leftover, expected, remote, sha, fault)
  {
  }

  /** Any other continues what is kept of the leftover: all of it where the stream can seek, else nothing. */
  lemma GoesOn(leftover: Bytes, expected: Descriptor, remote: Remote, sha: Bytes -> Bytes, fault: Fault)
    requires |leftover| <= expected.size && (remote.seekable ==> |leftover| <= |remote.content|)
    ensures
      var kept := if remote.seekable then leftover else [];
      var all := ToCopy(leftover, expected.size, remote);
      && all == (if |kept| < expected.size then remote.content[|kept|..] else [])
      && FileAfter(leftover, expected.size, remote, fault) ==
         WriteAt(leftover, |kept|, Copied(all, fault))
      && (Good(leftover, expected, remote, sha) <==>
            |kept| + |all| == expected.size && sha(kept + all) == expected.digest)
      && (|kept| + |all| == expected.size ==>
            && Assembled(leftover, expected.size, remote) == kept + all
            && WriteAt(leftover, |kept|, all) == kept + all)
      && (all == [] ==> WriteAt(leftover, |kept|, all) == leftover)
      && (CutOff(leftover, expected, remote, sha, fault) <==>
            if fault.AtMove? then Good(leftover, expected, remote, sha) else Breaks(fault, all))
  {
    var kept := if remote.seekable then leftover else [];
    assert kept + [] == kept && leftover[..|leftover|] == leftover && remote.content[0..] == remote.content;
    assert [] + remote.content == remote.content;
  }

  /** A stream that can seek only continues a leftover: what is not a part of the content does not become one. */
  lemma WrongKept(leftover: Bytes, size: nat, remote: Remote, fault: Fault)
    requires remote.seekable && !(leftover <= remote.content)
    ensures !(FileAfter(leftover, size, remote, fault) <= remote.content)
  {
    assert FileAfter(leftover, size, remote, fault)[..|leftover|] == leftover;
  }

  // ----- Progress over attempts that are served the right content

  /** How many bytes are still to be copied when the first `have` of them are there. */
  function Missing(have: nat, size: nat, seekable: bool): nat
    requires have <= size
  {
    if have == 0 || !seekable then size else size - have
  }

  /** How many are there after an attempt that is cut off: those copied come on top, or count from the start. */
  function Have(have: nat, size: nat, seekable: bool, fault: Fault): (r: nat)
    requires have <= size
    ensures have <= r <= size
  {
    match fault
    case After(n) =>
      if n >= Missing(have, size, seekable) then size
      else if seekable then have + n
      else if n < have then have else n
    case _ => size
  }

  /** One of the attempts is not cut off: it has no fault, or fewer bytes are missing than it gets to copy. */
  function GetsThere(have: nat, size: nat, remotes: seq<Remote>, faults: seq<Fault>): bool
    requires have <= size && |faults| == |remotes|
    decreases |remotes|
  {
    if remotes == [] then false
    else
      var done := match faults[0]
        case Never => true
        case After(n) => Missing(have, size, remotes[0].seekable) <= n
        case AtMove => false;
      done || GetsThere(Have(have, size, remotes[0].seekable, faults[0]), size, remotes[1..], faults[1..])
  }

  /** An attempt on a part of the right content is cut off as its length tells, and leaves a part of known length. */
  lemma AttemptRight(leftover: Bytes, expected: Descriptor, remote: Remote, sha: Bytes -> Bytes, fault: Fault)
    requires leftover <= remote.content
    requires |remote.content| == expected.size && sha(remote.content) == expected.digest
    ensures Good(leftover, expected, remote, sha) && Assembled(leftover, expected.size, remote) == remote.content
    ensures |ToCopy(leftover, expected.size, remote)| == Missing(|leftover|, expected.size, remote.seekable)
    ensures FileAfter(leftover, expected.size, remote, fault) <= remote.content
    ensures |FileAfter(leftover, expected.size, remote, fault)|
         == Have(|leftover|, expected.size, remote.seekable, fault)
  {
    PrefixGood(leftover, expected, remote, sha);
    var file, copied := remote.content, Copied(ToCopy(leftover, expected.size, remote), fault);
    assert file == leftover + file[|leftover|..];
    if remote.seekable && leftover != [] {
      assert file[|leftover|..][..|copied|] == copied;
      assert leftover + copied == file[..|leftover| + |copied|];
    } else {
      assert copied == file[..|copied|];
    }
  }

  /** On streams that can seek attempts add up: whatever is copied need not be copied again. */
  lemma {:induction false} AttemptsAddUp(have: nat, size: nat, remotes: seq<Remote>, ns: seq<nat>)
    requires have <= size && |ns| == |remotes| && remotes != []
    requires forall k :: 0 <= k < |remotes| ==> remotes[k].seekable
    ensures GetsThere(have, size, remotes, Faults(ns)) <==> have + Total(ns) >= size
    decreases |remotes|
  {
    if ns[0] >= Missing(have, size, true) || |ns| == 1 {
      assert |ns| == 1 ==> Total(ns[1..]) == 0;
    } else {
      assert Faults(ns)[1..] == Faults(ns[1..]);
      AttemptsAddUp(have + ns[0], size, remotes[1..], ns[1..]);
    }
  }

  function Total(ns: seq<nat>): nat
  {
    if ns == [] then 0 else ns[0] + Total(ns[1..])
  }

  function Faults(ns: seq<nat>): seq<Fault>
  {
    seq(|ns|, i requires 0 <= i < |ns| => After(ns[i]))
  }
}
