/** Name generation for duplicated states (`GetNextName`). */
module Naming {
  import opened Wrappers
  import opened Text

  /** `s.LastIndexOf(c)`: the last position holding `c`, or -1. */
  function LastIndexOf(s: string, c: char): (r: int)
    ensures -1 <= r < |s|
    ensures r >= 0 ==> s[r] == c
    ensures forall j :: r < j < |s| ==> s[j] != c
  {
    if s == [] then -1
    else if s[|s| - 1] == c then |s| - 1
    else LastIndexOf(s[..|s| - 1], c)
  }

  /** `num + 1` in unchecked 32-bit arithmetic: Int32.MaxValue wraps to Int32.MinValue. */
  function Increment32(num: int): (r: int)
    requires MinInt32 <= num <= MaxInt32
    ensures MinInt32 <= r <= MaxInt32 && r != num
    ensures num < MaxInt32 ==> r == num + 1
  {
    if num == MaxInt32 then MinInt32 else num + 1
  }

  /** `GetNextName`: when the text after the last underscore parses as an
      integer, replace it by that integer plus one; otherwise append "_1". */
  function NextName(baseName: string): string {
    var u := LastIndexOf(baseName, '_');
    if u != -1 && u < |baseName| - 1 then
      match ParseInt32(baseName[u + 1..])
      case Some(num) => baseName[..u] + "_" + Int32ToString(Increment32(num))
      case None => baseName + "_1"
    else
      baseName + "_1"
  }

  /** The generated name never equals the name it was derived from. */
  lemma NextNameDiffers(baseName: string)
    ensures NextName(baseName) != baseName
  {
    var u := LastIndexOf(baseName, '_');
    if u != -1 && u < |baseName| - 1 {
      var suffix := baseName[u + 1..];
      match ParseInt32(suffix)
      case Some(num) =>
        var next := Int32ToString(Increment32(num));
        var r := baseName[..u] + "_" + next;
        assert NextName(baseName) == r;
        if r == baseName {
          assert r[u + 1..] == next;
          assert next == suffix;
          ParseFormatted(Increment32(num));
          assert false;
        }
      case None =>
        assert NextName(baseName) == baseName + "_1";
        assert |baseName + "_1"| > |baseName|;
    } else {
      assert NextName(baseName) == baseName + "_1";
      assert |baseName + "_1"| > |baseName|;
    }
  }

  /** A name ending in "_<n>" becomes "_<n+1>" (below Int32.MaxValue). */
  lemma NextNameIncrements(prefix: string, n: int)
    requires MinInt32 <= n < MaxInt32
    ensures NextName(prefix + "_" + Int32ToString(n)) == prefix + "_" + Int32ToString(n + 1)
  {
    var digits := Int32ToString(n);
    var b := prefix + "_" + digits;
    var u := |prefix|;
    assert b[u] == '_' && b[u + 1..] == digits;
    LastUnderscore(b, u);
    assert b[..u] == prefix;
    ParseFormatted(n);
  }

  /** A name without any underscore gets "_1" appended. */
  lemma NextNameAppends(baseName: string)
    requires '_' !in baseName
    ensures NextName(baseName) == baseName + "_1"
  {
    assert forall j :: 0 <= j < |baseName| ==> baseName[j] in baseName;
  }

  lemma LastUnderscore(s: string, u: int)
    requires 0 <= u < |s| && s[u] == '_' && '_' !in s[u + 1..]
    ensures LastIndexOf(s, '_') == u
  {
    assert forall j :: u < j < |s| ==> s[u + 1..][j - u - 1] == s[j];
  }
}
