/**
 * `uniqueFilename`, the disk-storage name callback for uploads: the client's file
 * name, or, when that is taken, `base-1.ext`, `base-2.ext`, ... up to the first free one.
 * `path.extname` and `path.basename` follow Node's POSIX rules.
 */
module UploadFilenames {
  import opened Wrappers
  import Decimal

  function StripTrailingSlashes(p: string): (r: string)
    ensures r <= p && (r == [] || r[|r| - 1] != '/')
    ensures forall k :: |r| <= k < |p| ==> p[k] == '/'
  {
    if p != [] && p[|p| - 1] == '/' then StripTrailingSlashes(p[..|p| - 1]) else p
  }

  /** The text after the last `/`, which is all of `p` when it has none. */
  function AfterLastSlash(p: string): (r: string)
    ensures '/' !in r && |r| <= |p| && r == p[|p| - |r|..]
    ensures |r| < |p| ==> p[|p| - |r| - 1] == '/'
  {
    if p == [] || p[|p| - 1] == '/' then []
    else
      var r := AfterLastSlash(p[..|p| - 1]) + [p[|p| - 1]];
      assert r == p[|p| - |r|..];
      r
  }

  /** The last path segment, trailing slashes ignored: what `path.basename(p)` returns. */
  function LastSegment(p: string): (seg: string)
    ensures '/' !in seg
  {
    AfterLastSlash(StripTrailingSlashes(p))
  }

  function LastDot(s: string): (d: Option<nat>)
    ensures d.None? <==> '.' !in s
    ensures d.Some? ==> d.value < |s| && s[d.value] == '.' && forall k :: d.value < k < |s| ==> s[k] != '.'
  {
    if s == [] then None
    else if s[|s| - 1] == '.' then Some(|s| - 1)
    else LastDot(s[..|s| - 1])
  }

  /**
   * `path.extname` of a slash-free name: from its last period on, except that a
   * name without a period, a name whose only leading period is its last one
   * (`.env`) and `..` have none.
   */
  function ExtOfName(name: string): (ext: string)
    ensures ext == [] || (ext[0] == '.' && |ext| < |name| && ext == name[|name| - |ext|..])
    ensures ext != [] ==> '.' !in ext[1..]
    ensures '.' !in name ==> ext == []
  {
    match LastDot(name)
    case None => []
    case Some(d) =>
      if d == 0 || name == ".." then []
      else
        var ext := name[d..];
        assert '.' !in ext[1..] by {
          forall k | 0 <= k < |ext[1..]| ensures ext[1..][k] != '.' {
            assert ext[1..][k] == name[d + 1 + k];
          }
        }
        ext
  }

  /** `path.extname(originalName)` */
  function ExtName(p: string): (ext: string)
    ensures '/' !in ext
    ensures ext == [] || ext[0] == '.'
  {
    ExtOfName(LastSegment(p))
  }

  /** `path.basename(originalName, ext)` with `ext` the name's own extension: the last segment without it. */
  function Stem(p: string): (base: string)
    ensures '/' !in base
  {
    var seg := LastSegment(p);
    seg[..|seg| - |ExtName(p)|]
  }

  /** The stem and the extension make up the last segment again. */
  lemma StemThenExtension(p: string)
    ensures Stem(p) + ExtName(p) == LastSegment(p)
  {
  }

  /** `${base}-${k}${ext}` */
  function Numbered(base: string, k: nat, ext: string): string {
    base + "-" + Decimal.NatToString(k) + ext
  }

  /** The `k`-th name tried after the original. */
  function Candidate(p: string, k: nat): string {
    Numbered(Stem(p), k, ExtName(p))
  }

  /** Different numbers give different names. */
  lemma NumberedInjective(base: string, j: nat, k: nat, ext: string)
    requires Numbered(base, j, ext) == Numbered(base, k, ext)
    ensures j == k
  {
    var prefix := base + "-";
    var cj, ck := Numbered(base, j, ext), Numbered(base, k, ext);
    assert cj == prefix + Decimal.NatToString(j) + ext;
    assert ck == prefix + Decimal.NatToString(k) + ext;
    assert cj[|prefix|..|cj| - |ext|] == Decimal.NatToString(j);
    assert ck[|prefix|..|ck| - |ext|] == Decimal.NatToString(k);
    Decimal.NatToStringInjective(j, k);
  }

  /** The first `n` numbered names. */
  ghost function NumberedUpTo(base: string, ext: string, n: nat): set<string> {
    if n == 0 then {} else NumberedUpTo(base, ext, n - 1) + {Numbered(base, n, ext)}
  }

  lemma {:induction false} NumberedUpToMembers(base: string, ext: string, n: nat, s: string)
    requires s in NumberedUpTo(base, ext, n)
    ensures exists j :: 1 <= j <= n && s == Numbered(base, j, ext)
  {
    if s != Numbered(base, n, ext) {
      NumberedUpToMembers(base, ext, n - 1, s);
    }
  }

  lemma {:induction false} NumberedUpToSize(base: string, ext: string, n: nat)
    ensures |NumberedUpTo(base, ext, n)| == n
  {
    if n > 0 {
      NumberedUpToSize(base, ext, n - 1);
      if Numbered(base, n, ext) in NumberedUpTo(base, ext, n - 1) {
        NumberedUpToMembers(base, ext, n - 1, Numbered(base, n, ext));
        var j :| 1 <= j <= n - 1 && Numbered(base, n, ext) == Numbered(base, j, ext);
        NumberedInjective(base, j, n, ext);
      }
    }
  }

  lemma {:induction false} NumberedUpToTaken(base: string, ext: string, n: nat, existing: set<string>)
    requires forall j :: 1 <= j <= n ==> Numbered(base, j, ext) in existing
    ensures NumberedUpTo(base, ext, n) <= existing
  {
    if n > 0 {
      NumberedUpToTaken(base, ext, n - 1, existing);
    }
  }

  lemma {:induction false} SubsetSize<T>(a: set<T>, b: set<T>)
    requires a <= b
    ensures |a| <= |b|
  {
    if a != {} {
      var x :| x in a;
      SubsetSize(a - {x}, b - {x});
    }
  }

  /** A finite directory holds at most as many numbered names as it has names. */
  lemma TakenBound(base: string, ext: string, n: nat, existing: set<string>)
    requires forall j :: 1 <= j < n ==> Numbered(base, j, ext) in existing
    requires n >= 1 ==> Numbered(base, n, ext) in existing
    ensures n <= |existing|
  {
    NumberedUpToTaken(base, ext, n, existing);
    NumberedUpToSize(base, ext, n);
    SubsetSize(NumberedUpTo(base, ext, n), existing);
  }

  /**
   * `uniqueFilename(req, file, cb)` where `existing` holds the names already
   * present in the upload directory: the name handed to the callback is free, is
   * the original name when that is free, and is otherwise the first free candidate.
   */
  method UniqueFilename(originalName: string, existing: set<string>) returns (filename: string)
    ensures filename !in existing
    ensures originalName !in existing ==> filename == originalName
    ensures originalName in existing ==>
              exists k :: 1 <= k && filename == Candidate(originalName, k)
                          && forall j :: 1 <= j < k ==> Candidate(originalName, j) in existing
  {
    var ext := ExtName(originalName);
    var base := Stem(originalName);
    var index;
    filename, index := Probe(originalName, base, ext, existing);
    if index >= 1 {
      assert filename == Candidate(originalName, index);
      assert forall j :: 1 <= j < index ==> Candidate(originalName, j) in existing;
    }
  }

  /**
   * The loop of `uniqueFilename`: starting from the original name, `index` counts
   * up and the name is rebuilt from `base` and `ext` while it is taken.
   */
  method Probe(originalName: string, base: string, ext: string, existing: set<string>) returns (filename: string, index: nat)
    ensures filename !in existing
    ensures index == 0 <==> originalName !in existing
    ensures filename == if index == 0 then originalName else Numbered(base, index, ext)
    ensures forall j :: 1 <= j < index ==> Numbered(base, j, ext) in existing
  {
    index := 0;
    filename := originalName;
    while filename in existing
      invariant filename == if index == 0 then originalName else Numbered(base, index, ext)
      invariant index >= 1 ==> originalName in existing
      invariant forall j :: 1 <= j < index ==> Numbered(base, j, ext) in existing
      invariant index <= |existing| + 1
      decreases |existing| + 1 - index
    {
      if index >= 1 {
        TakenBound(base, ext, index, existing);
      }
      index := index + 1;
      filename := Numbered(base, index, ext);
    }
  }
}
