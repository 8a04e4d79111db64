/**
 * `System.IO.Path` as the backup engine uses it, on a Unix host where the
 * only directory separator is '/': `Combine`, `GetExtension` and
 * `ChangeExtension`.
 */
module DotNetPath {
  import opened Wrappers

  const DirectorySeparator: char := '/'

  /** Holds no directory separator. */
  predicate NoSeparator(s: string) {
    forall k :: 0 <= k < |s| ==> s[k] != DirectorySeparator
  }

  /** `Path.IsPathRooted` on Unix: the path starts with the separator. */
  predicate IsPathRooted(p: string) {
    |p| > 0 && p[0] == DirectorySeparator
  }

  /** `Path.Combine(a, b)`: an empty part is dropped, a rooted `b` wins, otherwise one separator joins them. */
  function Combine(a: string, b: string): string {
    if |a| == 0 then b
    else if |b| == 0 then a
    else if IsPathRooted(b) then b
    else if a[|a| - 1] == DirectorySeparator then a + b
    else a + [DirectorySeparator] + b
  }

  /** `Path.Combine(a, b, c, d)`, which agrees with combining left to right. */
  function Combine4(a: string, b: string, c: string, d: string): string {
    Combine(Combine(Combine(a, b), c), d)
  }

  /** Where the last segment of `p[..end]` starts: just after its last separator, or 0. */
  function FileNameStart(p: string, end: nat): nat
    requires end <= |p|
    decreases end
  {
    if end == 0 then 0
    else if p[end - 1] == DirectorySeparator then end
    else FileNameStart(p, end - 1)
  }

  /** The last segment starts after a separator (or at the start) and holds none. */
  lemma {:induction false} FileNameStartSpec(p: string, end: nat)
    requires end <= |p|
    ensures FileNameStart(p, end) <= end
    ensures FileNameStart(p, end) == 0 || p[FileNameStart(p, end) - 1] == DirectorySeparator
    ensures forall k :: FileNameStart(p, end) <= k < end ==> p[k] != DirectorySeparator
    decreases end
  {
    if end > 0 && p[end - 1] != DirectorySeparator {
      FileNameStartSpec(p, end - 1);
    }
  }

  /** The position of the last '.' in the last segment of `p[..end]`, if it has one. */
  function LastDot(p: string, end: nat): (r: Option<nat>)
    requires end <= |p|
    ensures r.Some? ==> r.value < end
    decreases end
  {
    if end == 0 then None
    else if p[end - 1] == '.' then Some(end - 1)
    else if p[end - 1] == DirectorySeparator then None
    else LastDot(p, end - 1)
  }

  /** The dot found lies in the last segment with no dot after it; without one, the segment has no dot. */
  lemma {:induction false} LastDotSpec(p: string, end: nat)
    requires end <= |p|
    ensures LastDot(p, end).Some? ==> FileNameStart(p, end) <= LastDot(p, end).value < end && p[LastDot(p, end).value] == '.'
    ensures LastDot(p, end).Some? ==> forall k :: LastDot(p, end).value < k < end ==> p[k] != '.' && p[k] != DirectorySeparator
    ensures LastDot(p, end).None? ==> forall k :: FileNameStart(p, end) <= k < end ==> p[k] != '.'
    decreases end
  {
    FileNameStartSpec(p, end);
    if end > 0 && p[end - 1] != '.' && p[end - 1] != DirectorySeparator {
      LastDotSpec(p, end - 1);
    }
  }

  /**
   * `Path.GetExtension(p)`: the text from the last '.' of the last segment to
   * the end, the dot included; empty when that segment has no '.' or ends in one.
   */
  function GetExtension(p: string): string {
    match LastDot(p, |p|)
    case None => ""
    case Some(i) => if i == |p| - 1 then "" else p[i..]
  }

  /** The extension is a dot, then at least one character that is neither a dot nor a separator, ending the path. */
  lemma GetExtensionSpec(p: string)
    ensures var r := GetExtension(p);
      && (r == "" || (2 <= |r| <= |p| && r[0] == '.' && r == p[|p| - |r|..]))
      && (forall k :: 1 <= k < |r| ==> r[k] != '.' && r[k] != DirectorySeparator)
      && (r == "" <==> LastDot(p, |p|).None? || LastDot(p, |p|).value == |p| - 1)
  {
    LastDotSpec(p, |p|);
    var r := GetExtension(p);
    if r != "" {
      var i := LastDot(p, |p|).value;
      assert forall k :: 1 <= k < |r| ==> r[k] == p[i + k];
    }
  }

  /**
   * `Path.ChangeExtension(p, ext)` for a non-null `ext`: drop everything from
   * the last '.' of the last segment, then append `ext`, with a '.' put in
   * front of it unless it already starts with one.
   */
  function ChangeExtension(p: string, ext: string): string {
    if |p| == 0 then ""
    else
      var stem := match LastDot(p, |p|) case None => p case Some(i) => p[..i];
      if |ext| > 0 && ext[0] == '.' then stem + ext else stem + "." + ext
  }

  /** On a name without any '.', `ChangeExtension` only appends. */
  lemma ChangeExtensionOfDotlessName(p: string, ext: string)
    requires |p| > 0 && forall k :: 0 <= k < |p| ==> p[k] != '.'
    ensures ChangeExtension(p, ext) == if |ext| > 0 && ext[0] == '.' then p + ext else p + "." + ext
  {
    LastDotSpec(p, |p|);
    FileNameStartSpec(p, |p|);
    assert LastDot(p, |p|).None?;
  }

  /** Combining a directory with a plain name puts the name directly inside the directory. */
  lemma CombineWithName(dir: string, name: string)
    requires |dir| > 0 && dir[|dir| - 1] != DirectorySeparator
    requires |name| > 0 && forall k :: 0 <= k < |name| ==> name[k] != DirectorySeparator
    ensures Combine(dir, name) == dir + [DirectorySeparator] + name
  {
    assert name[0] != DirectorySeparator;
  }

  /** Two plain names combined with the same directory give the same path only if they are the same name. */
  lemma CombineInjective(dir: string, a: string, b: string)
    requires |a| > 0 && !IsPathRooted(a) && |b| > 0 && !IsPathRooted(b)
    ensures Combine(dir, a) == Combine(dir, b) ==> a == b
  {
    if Combine(dir, a) == Combine(dir, b) && |dir| > 0 {
      var sep := if dir[|dir| - 1] == DirectorySeparator then dir else dir + [DirectorySeparator];
      assert Combine(dir, a) == sep + a && Combine(dir, b) == sep + b;
      assert a == (sep + a)[|sep|..] && b == (sep + b)[|sep|..];
    }
  }

  /** Combining three plain names in turn onto `dir` nests them as one relative path. */
  lemma CombineNames(dir: string, a: string, b: string, c: string)
    requires |a| > 0 && NoSeparator(a) && |b| > 0 && NoSeparator(b) && |c| > 0 && NoSeparator(c)
    ensures Combine4(dir, a, b, c) == Combine(dir, a + [DirectorySeparator] + b + [DirectorySeparator] + c)
  {
    var x := Combine(dir, a);
    var sep := if |dir| == 0 then [] else if dir[|dir| - 1] == DirectorySeparator then dir else dir + [DirectorySeparator];
    assert a[0] != DirectorySeparator;
    assert x == sep + a;
    assert x[|x| - 1] == a[|a| - 1];
    CombineWithName(x, b);
    var y := Combine(x, b);
    assert y[|y| - 1] == b[|b| - 1];
    CombineWithName(y, c);
    var rest := a + [DirectorySeparator] + b + [DirectorySeparator] + c;
    assert rest[0] == a[0];
    assert Combine(dir, rest) == sep + rest;
  }
}
