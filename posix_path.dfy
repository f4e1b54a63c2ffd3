/**
 * The POSIX flavour of Python's `os.path` functions the converter uses:
 * `split`, `basename`, `splitext` and `join`, on '/'-separated paths.
 */
module PosixPath {

  predicate AllSlashes(s: string) { forall i :: 0 <= i < |s| ==> s[i] == '/' }

  /** `s.rfind(c)`: the last position of `c` in `s`, or -1. */
  function LastIndexOf(s: string, c: char): (r: int)
    ensures -1 <= r < |s|
  {
    if |s| == 0 then -1
    else if s[|s| - 1] == c then |s| - 1
    else LastIndexOf(s[..|s| - 1], c)
  }

  /** The position found holds `c`, and no later position does. */
  lemma {:induction false} LastIndexOfFacts(s: string, c: char)
    ensures var r := LastIndexOf(s, c);
      && (r >= 0 ==> s[r] == c)
      && (forall i :: r < i < |s| ==> s[i] != c)
  {
    if |s| > 0 && s[|s| - 1] != c {
      LastIndexOfFacts(s[..|s| - 1], c);
    }
  }

  /** `s.rstrip('/')`. */
  function StripTrailingSlashes(s: string): (r: string)
    ensures |r| <= |s|
  {
    if |s| > 0 && s[|s| - 1] == '/' then StripTrailingSlashes(s[..|s| - 1]) else s
  }

  /** Stripping keeps a prefix, removes only slashes and leaves no slash at the end. */
  lemma {:induction false} StripTrailingSlashesFacts(s: string)
    ensures var r := StripTrailingSlashes(s);
      && r == s[..|r|]
      && AllSlashes(s[|r|..])
      && (r == [] || r[|r| - 1] != '/')
  {
    if |s| > 0 && s[|s| - 1] == '/' {
      var t := s[..|s| - 1];
      StripTrailingSlashesFacts(t);
      var r := StripTrailingSlashes(t);
      assert t[..|r|] == s[..|r|];
      assert forall i :: |r| <= i < |s| - 1 ==> s[i] == t[i];
    }
  }

  /**
   * What `split` can return as the directory part: the empty path, the root
   * written with one or more slashes, or a path that does not end in a slash.
   */
  predicate IsHead(h: string) { AllSlashes(h) || h[|h| - 1] != '/' }

  datatype Parts = Parts(head: string, tail: string)

  /**
   * `os.path.split(p)`: the tail is everything after the last slash, the head
   * everything up to it, with the trailing slashes removed unless the head
   * consists of slashes only.
   */
  function Split(p: string): Parts
  {
    var i := LastIndexOf(p, '/') + 1;
    Parts(Head(p[..i]), p[i..])
  }

  function Head(h: string): string
  {
    if AllSlashes(h) then h else StripTrailingSlashes(h)
  }

  /** The head `split` returns is a possible head, and its tail holds no slash. */
  lemma SplitFacts(p: string)
    ensures IsHead(Split(p).head) && '/' !in Split(p).tail
  {
    var i := LastIndexOf(p, '/') + 1;
    LastIndexOfFacts(p, '/');
    StripTrailingSlashesFacts(p[..i]);
    assert forall k :: 0 <= k < |p[i..]| ==> p[i..][k] == p[i + k];
  }

  /**
   * What `split` returns puts the path back together: the head, then one or
   * more slashes (none when the head is empty or the tail is the whole
   * path), then the tail, which is everything after the last slash.
   */
  lemma SplitReassembles(p: string)
    ensures var r := Split(p);
            |r.head| + |r.tail| <= |p| && p == r.head + p[|r.head|..|p| - |r.tail|] + r.tail &&
            AllSlashes(p[|r.head|..|p| - |r.tail|]) &&
            (|r.tail| < |p| ==> p[|p| - |r.tail| - 1] == '/')
  {
    var i := LastIndexOf(p, '/') + 1;
    LastIndexOfFacts(p, '/');
    var h := p[..i];
    var r := Split(p);
    assert r.tail == p[i..];
    if !AllSlashes(h) {
      var s := StripTrailingSlashes(h);
      StripTrailingSlashesFacts(h);
      assert p[|s|..i] == h[|s|..];
    }
    assert p == r.head + p[|r.head|..|p| - |r.tail|] + r.tail;
  }

  /** `os.path.basename(p)`: what follows the last slash, which is the tail of `split`. */
  function Basename(p: string): string
  {
    p[LastIndexOf(p, '/') + 1..]
  }

  /** `os.path.join(a, b)` for two components. */
  function Join(a: string, b: string): string
  {
    if |b| > 0 && b[0] == '/' then b
    else if a == [] || a[|a| - 1] == '/' then a + b
    else a + "/" + b
  }

  lemma LastIndexAbsent(s: string, c: char)
    requires c !in s
    ensures LastIndexOf(s, c) == -1
  {
  }

  lemma LastIndexBefore(a: string, b: string, c: char)
    requires |a| > 0 && a[|a| - 1] == c && c !in b
    ensures LastIndexOf(a + b, c) == |a| - 1
  {
    var r := LastIndexOf(a + b, c);
    LastIndexOfFacts(a + b, c);
    assert (a + b)[|a| - 1] == c;
  }

  lemma StripOneSlash(h: string)
    requires h == [] || h[|h| - 1] != '/'
    ensures StripTrailingSlashes(h + "/") == h
  {
    assert (h + "/")[..|h|] == h;
  }

  /** Joining a directory and a plain file name is undone by `split`. */
  lemma SplitJoin(head: string, name: string)
    requires IsHead(head)
    requires |name| > 0 && '/' !in name
    ensures Split(Join(head, name)) == Parts(head, name)
  {
    assert name[0] in name;
    if head == [] {
      assert Join(head, name) == name;
      LastIndexAbsent(name, '/');
      assert name[..0] == [];
      assert Head([]) == [];
    } else if AllSlashes(head) {
      var p := head + name;
      assert Join(head, name) == p;
      LastIndexBefore(head, name, '/');
      assert p[..|head|] == head && p[|head|..] == name;
      assert Head(head) == head;
    } else {
      var a := head + "/";
      var p := a + name;
      assert Join(head, name) == p;
      LastIndexBefore(a, name, '/');
      assert p[..|a|] == a && p[|a|..] == name;
      assert a[|head| - 1] != '/';
      StripOneSlash(head);
      assert Head(a) == head;
    }
  }

  predicate HasNonDot(s: string) { exists i :: 0 <= i < |s| && s[i] != '.' }

  /** Some character of `s` in positions `lo` up to `hi` (exclusive) is not a dot. */
  predicate NonDotBetween(s: string, lo: int, hi: int)
  {
    exists i :: lo <= i < hi && 0 <= i < |s| && s[i] != '.'
  }

  datatype StemExt = StemExt(stem: string, ext: string)

  /**
   * `os.path.splitext(p)`: the extension runs from the last dot of the last
   * component, provided a character other than a dot comes before that dot
   * in the component (so ".png" and "..png" have no extension).
   */
  function SplitExt(p: string): StemExt
  {
    var sep := LastIndexOf(p, '/');
    var dot := LastIndexOf(p, '.');
    if dot > sep && NonDotBetween(p, sep + 1, dot) then
      StemExt(p[..dot], p[dot..])
    else
      StemExt(p, [])
  }

  /**
   * `splitext` cuts `p` in two: the extension is empty or starts with a dot,
   * and no dot or slash follows the cut except that first dot.
   */
  lemma SplitExtFacts(p: string)
    ensures var r := SplitExt(p);
      && r.stem + r.ext == p
      && (r.ext == [] || r.ext[0] == '.')
      && (forall i :: |r.stem| < i < |p| ==> p[i] != '.' && p[i] != '/')
  {
    LastIndexOfFacts(p, '/');
    LastIndexOfFacts(p, '.');
    var r := SplitExt(p);
    assert r.stem + r.ext == p;
  }

  /**
   * On a file name, `splitext` cuts at the last dot exactly when some
   * character other than a dot comes before it; otherwise there is no
   * extension, because no dot follows a character that is not a dot.
   */
  lemma SplitExtOfName(name: string)
    requires '/' !in name
    ensures SplitExt(name).ext != [] ==> HasNonDot(SplitExt(name).stem)
    ensures SplitExt(name).ext == [] ==>
              forall i, j :: 0 <= i < j < |name| && name[i] != '.' ==> name[j] != '.'
  {
    LastIndexAbsent(name, '/');
    LastIndexOfFacts(name, '.');
    SplitExtFacts(name);
    var dot := LastIndexOf(name, '.');
    var r := SplitExt(name);
    if r.ext != [] {
      var k :| 0 <= k < dot && name[k] != '.';
      assert r.stem[k] != '.';
    }
  }
}
