/**
  * `createTempFile`: a temporary file name derived from an input file name, made by cutting the
  * name at its last dot and appending `_temp.txt`.
  */
module TempFile {
  import opened StdString

  /** The text every temporary file name ends with. */
  const TempSuffix: string := "_temp.txt"

  /** `p` is the position of the last dot in `name`. */
  predicate LastDotAt(name: string, p: nat) {
    p < |name| && name[p] == '.' && '.' !in name[p + 1..]
  }

  /** There is only one last dot, and `find_last_of('.')` finds it. */
  lemma LastDotIsFound(name: string, p: nat)
    requires |name| < NPos && LastDotAt(name, p)
    ensures FindLastOf(name, '.') == p
  {
  }

  /**
    * `createTempFile` as the source writes it: the prefix is `substr(0, dot_position - 1)`, so
    * with a dot at position `p >= 1` the character before the dot is dropped as well; with no dot,
    * or with the dot at position 0, `npos - 1` or `0 - 1` wraps to a huge count and the whole
    * name is kept.
    */
  function CreateTempFile(name: string): (r: string)
    requires |name| < NPos
    ensures |r| >= |TempSuffix| && r[|r| - |TempSuffix|..] == TempSuffix
    ensures r[..|r| - |TempSuffix|] <= name
    ensures '.' !in name ==> r == name + TempSuffix
    ensures forall p: nat :: LastDotAt(name, p) ==> r == (if p == 0 then name else name[..p - 1]) + TempSuffix
  {
    var dotPosition := FindLastOf(name, '.');
    var prefix := SubstrFromStart(name, SizeSub(dotPosition, 1));
    LastDotFixesPrefix(name, prefix);
    prefix + TempSuffix
  }

  /** The prefix `createTempFile` keeps, for each place the last dot can be. */
  lemma LastDotFixesPrefix(name: string, prefix: string)
    requires |name| < NPos
    requires prefix == SubstrFromStart(name, SizeSub(FindLastOf(name, '.'), 1))
    ensures '.' !in name ==> prefix == name
    ensures forall p: nat :: LastDotAt(name, p) ==> prefix == if p == 0 then name else name[..p - 1]
  {
    var d := FindLastOf(name, '.');
    var count := SizeSub(d, 1);
    if d == NPos || d == 0 {
      assert count >= |name|;
    } else {
      assert count == d - 1;
    }
    forall p: nat | LastDotAt(name, p)
      ensures prefix == if p == 0 then name else name[..p - 1]
    {
      LastDotIsFound(name, p);
    }
  }

  /** Whatever character stands just before the last dot, it is lost along with the extension. */
  lemma CreateTempFileDropsCharBeforeDot(stem: string, c: char, ext: string)
    requires |stem| + |ext| + 2 < NPos && '.' !in ext
    ensures CreateTempFile(stem + [c] + "." + ext) == stem + TempSuffix
  {
    var name := stem + [c] + "." + ext;
    var p := |stem| + 1;
    assert name[p] == '.' && name[p + 1..] == ext;
    assert LastDotAt(name, p);
    assert name[..p - 1] == stem;
  }

  /**
    * Two names that differ only in the character before the dot get the same temporary file,
    * and a one-character stem leaves nothing before the suffix.
    */
  lemma CreateTempFileCollides()
    ensures CreateTempFile("a.txt") == CreateTempFile("b.txt") == TempSuffix
  {
    assert LastDotAt("a.txt", 1);
    assert LastDotAt("b.txt", 1);
  }

  /**
    * `createTempFile` as its comment describes it: the prefix is `substr(0, dot_position)`, the
    * whole stem before the last dot, or the whole name when it has no dot.
    */
  function CreateTempFileIntended(name: string): (r: string)
    requires |name| < NPos
    ensures |r| >= |TempSuffix| && r[|r| - |TempSuffix|..] == TempSuffix
    ensures '.' !in name ==> r == name + TempSuffix
    ensures forall p: nat :: LastDotAt(name, p) ==> r == name[..p] + TempSuffix
  {
    var dotPosition := FindLastOf(name, '.');
    var prefix := SubstrFromStart(name, dotPosition);
    IntendedPrefix(name, prefix);
    prefix + TempSuffix
  }

  /** The prefix the intended version keeps is exactly the stem. */
  lemma IntendedPrefix(name: string, prefix: string)
    requires |name| < NPos
    requires prefix == SubstrFromStart(name, FindLastOf(name, '.'))
    ensures '.' !in name ==> prefix == name
    ensures forall p: nat :: LastDotAt(name, p) ==> prefix == name[..p]
  {
    forall p: nat | LastDotAt(name, p)
      ensures prefix == name[..p]
    {
      LastDotIsFound(name, p);
    }
  }

  /** With the intended prefix, names with an extension and different stems never share a temporary file. */
  lemma IntendedKeepsStemsApart(n1: string, p1: nat, n2: string, p2: nat)
    requires |n1| < NPos && |n2| < NPos
    requires LastDotAt(n1, p1) && LastDotAt(n2, p2)
    requires n1[..p1] != n2[..p2]
    ensures CreateTempFileIntended(n1) != CreateTempFileIntended(n2)
  {
    var r1, r2 := CreateTempFileIntended(n1), CreateTempFileIntended(n2);
    assert r1[..p1] == n1[..p1] && |r1| == p1 + |TempSuffix|;
    assert r2[..p2] == n2[..p2] && |r2| == p2 + |TempSuffix|;
  }
}
