/**
 * Path strings as the storage code builds and takes them apart:
 * joining with DIRECTORY_SEPARATOR, the relative name
 * `substr($filePath, strlen($dir) + 1)`, the ancestors that
 * `createDirectoryRecursively` creates, `dirname`, and the decimal
 * rendering of an integer (`$this->contentId` inside a string).
 */
module Paths {

  type Path = string

  /** DIRECTORY_SEPARATOR on the hosts the package runs on. */
  const Separator: char := '/'

  /** `$dir . DIRECTORY_SEPARATOR . $name` */
  function Join(dir: Path, name: Path): Path
  {
    dir + [Separator] + name
  }

  /** `p` lies strictly below the directory `dir` (there is a non-empty name after `dir/`). */
  predicate Under(dir: Path, p: Path)
  {
    |p| > |dir| + 1 && p[..|dir|] == dir && p[|dir|] == Separator
  }

  /**
   * `substr($p, strlen($dir) + 1)`: everything after the first |dir| + 1
   * characters; PHP yields "" when the offset reaches the end.
   */
  function RelativePath(dir: Path, p: Path): Path
  {
    if |dir| + 1 <= |p| then p[|dir| + 1..] else []
  }

  /** A direct entry of `dir`: below it, with no further separator in its name. */
  predicate Child(dir: Path, p: Path)
  {
    Under(dir, p) && Separator !in RelativePath(dir, p)
  }

  /** Stripping the prefix of `dir/rel` gives back `rel`, and a non-empty `rel` lies below `dir`. */
  lemma RelativePathOfJoin(dir: Path, rel: Path)
    ensures RelativePath(dir, Join(dir, rel)) == rel
    ensures rel != [] <==> Under(dir, Join(dir, rel))
  {
    var p := Join(dir, rel);
    assert p[..|dir|] == dir;
    assert p[|dir| + 1..] == rel;
  }

  /** A path below `dir` is `dir/` followed by its non-empty relative name. */
  lemma JoinOfRelativePath(dir: Path, p: Path)
    requires Under(dir, p)
    ensures RelativePath(dir, p) != []
    ensures Join(dir, RelativePath(dir, p)) == p
  {
    assert p == p[..|dir|] + [p[|dir|]] + p[|dir| + 1..];
  }

  /** Joining onto the same directory never merges two names. */
  lemma JoinInjective(dir: Path, a: Path, b: Path)
    requires Join(dir, a) == Join(dir, b)
    ensures a == b
  {
    RelativePathOfJoin(dir, a);
    RelativePathOfJoin(dir, b);
  }

  /**
   * The directories `mkdir($path, 0777, true)` has to exist afterwards: the
   * path itself and every prefix that ends just before a separator.
   */
  function AncestorsOrSelf(p: Path): set<Path>
  {
    {p} + set i | 0 < i < |p| && p[i] == Separator :: p[..i]
  }

  /** Index of the last separator in `p`, or -1. */
  function LastSeparator(p: Path): (k: int)
    ensures -1 <= k < |p|
    ensures 0 <= k ==> p[k] == Separator
    ensures forall j :: k < j < |p| ==> p[j] != Separator
  {
    if |p| == 0 then -1
    else if p[|p| - 1] == Separator then |p| - 1
    else LastSeparator(p[..|p| - 1])
  }

  /**
   * `dirname($p)` for the absolute paths the package uses: everything before
   * the last separator. A path whose only separator is the leading one has the
   * file-system root as parent; the model stops there and returns `p` itself.
   */
  function Parent(p: Path): (q: Path)
    ensures q == p || (|q| < |p| && q in AncestorsOrSelf(p) && AncestorsOrSelf(q) <= AncestorsOrSelf(p))
  {
    var k := LastSeparator(p);
    if k > 0 then
      assert forall a :: a in AncestorsOrSelf(p[..k]) ==> a in AncestorsOrSelf(p) by {
        forall a | a in AncestorsOrSelf(p[..k]) ensures a in AncestorsOrSelf(p) {
          if a != p[..k] {
            var i :| 0 < i < k && p[..k][i] == Separator && a == p[..k][..i];
            assert a == p[..i];
          }
        }
      }
      p[..k]
    else p
  }

  function DigitChar(d: nat): (c: char)
    requires d < 10
    ensures '0' <= c <= '9'
  {
    (48 + d) as char
  }

  /** Decimal digits of `n`, most significant first, without leading zeros. */
  function NatToString(n: nat): (s: string)
    ensures 1 <= |s|
    ensures n < 10 <==> |s| == 1
    ensures forall c :: c in s ==> '0' <= c <= '9'
  {
    if n < 10 then [DigitChar(n)] else NatToString(n / 10) + [DigitChar(n % 10)]
  }

  /** PHP's string conversion of an int: decimal, with a leading '-' when negative. */
  function IntToString(i: int): (s: string)
    ensures 1 <= |s|
    ensures forall c :: c in s ==> c == '-' || '0' <= c <= '9'
  {
    if i < 0 then "-" + NatToString(-i) else NatToString(i)
  }

  lemma {:induction false} NatToStringInjective(a: nat, b: nat)
    requires NatToString(a) == NatToString(b)
    ensures a == b
    decreases a
  {
    var s := NatToString(a);
    if a < 10 {
      assert [DigitChar(a)] == s;
      assert b < 10;
      assert (48 + a) as char == (48 + b) as char;
    } else {
      assert b >= 10;
      assert s == NatToString(a / 10) + [DigitChar(a % 10)];
      assert s == NatToString(b / 10) + [DigitChar(b % 10)];
      assert s[..|s| - 1] == NatToString(a / 10) == NatToString(b / 10);
      assert (48 + a % 10) as char == s[|s| - 1] == (48 + b % 10) as char;
      NatToStringInjective(a / 10, b / 10);
    }
  }

  /** The rendering starts with '-' exactly for negative integers. */
  lemma IntToStringSign(i: int)
    ensures IntToString(i)[0] == '-' <==> i < 0
  {
    if i >= 0 {
      assert IntToString(i)[0] in NatToString(i);
    }
  }

  /** Two different integers never print the same: distinct ids give distinct names. */
  lemma IntToStringInjective(a: int, b: int)
    requires IntToString(a) == IntToString(b)
    ensures a == b
  {
    IntToStringSign(a);
    IntToStringSign(b);
    if a < 0 {
      assert IntToString(a)[1..] == NatToString(-a);
      assert IntToString(b)[1..] == NatToString(-b);
      NatToStringInjective(-a, -b);
    } else {
      NatToStringInjective(a, b);
    }
  }
}
