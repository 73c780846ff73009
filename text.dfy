/** The string operations the two route modules use on file names:
    `str.lower()` and `rsplit('.', 1)[1]`. */
module Text {

  /** `str.lower()` restricted to ASCII: 'A'..'Z' become 'a'..'z', every other character is kept. */
  function LowerChar(c: char): (r: char)
    ensures 'A' <= c <= 'Z' ==> r as int == c as int + 32
    ensures !('A' <= c <= 'Z') ==> r == c
  {
    if 'A' <= c <= 'Z' then (c as int + 32) as char else c
  }

  function Lower(s: string): (r: string)
    ensures |r| == |s|
    ensures forall i :: 0 <= i < |s| ==> r[i] == LowerChar(s[i])
  {
    if s == [] then [] else [LowerChar(s[0])] + Lower(s[1..])
  }

  /** The text after the last '.', which is what `s.rsplit('.', 1)[1]` yields.
      Python raises IndexError when `s` has no '.', hence the precondition. */
  function Extension(s: string): (r: string)
    requires '.' in s
    ensures |r| < |s|
    ensures s[|s| - |r| - 1] == '.'
    ensures s[|s| - |r|..] == r
    ensures '.' !in r
  {
    var n := |s| - 1;
    if s[n] == '.' then []
    else
      assert '.' in s[..n] by {
        var k :| 0 <= k < |s| && s[k] == '.';
        assert s[..n][k] == '.';
      }
      var e := Extension(s[..n]);
      assert s[..n][n - |e|..] == e;
      e + [s[n]]
  }

  /** The extension is determined by the split: whatever precedes the last dot. */
  lemma {:induction false} ExtensionOfSplit(stem: string, ext: string)
    requires '.' !in ext
    ensures '.' in stem + "." + ext
    ensures Extension(stem + "." + ext) == ext
  {
    var s := stem + "." + ext;
    assert s[|stem|] == '.';
    assert s[|s| - |ext|..] == ext;
  }
}
