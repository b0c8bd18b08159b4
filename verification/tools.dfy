/**
 The path-separator tools `2unix url` (`x.replace('\\', '/')`) and `2windows url`
 (`x.replace('/', '\\')`): one character swapped for another everywhere.
 */
module Tools {

  const Backslash: char := '\\'
  const Slash: char := '/'

  /** `s.replace(a, b)` for one-character `a` and `b`. */
  function ReplaceChar(s: string, a: char, b: char): (r: string)
    ensures |r| == |s|
    ensures forall i :: 0 <= i < |s| ==> r[i] == if s[i] == a then b else s[i]
  {
    if s == [] then ""
    else
      var rest := ReplaceChar(s[1..], a, b);
      var r := [if s[0] == a then b else s[0]] + rest;
      assert forall i :: 1 <= i < |s| ==> r[i] == rest[i - 1] && s[i] == s[1..][i - 1];
      r
  }

  /** `2unix url`. */
  function ToUnix(x: string): (r: string)
    ensures Backslash !in r
  {
    ReplaceChar(x, Backslash, Slash)
  }

  /** `2windows url`. */
  function ToWindows(x: string): (r: string)
    ensures Slash !in r
  {
    ReplaceChar(x, Slash, Backslash)
  }

  /**
   `2windows url` undoes `2unix url` exactly when the text had no forward slash: a
   slash already there would come back as a backslash.
   */
  lemma ToWindowsAfterToUnix(x: string)
    ensures ToWindows(ToUnix(x)) == x <==> Slash !in x
  {
  }

  /** `2unix url` undoes `2windows url` exactly when the text had no backslash. */
  lemma ToUnixAfterToWindows(x: string)
    ensures ToUnix(ToWindows(x)) == x <==> Backslash !in x
  {
  }

  /** Both tools are idempotent. */
  lemma ToolsIdempotent(x: string)
    ensures ToUnix(ToUnix(x)) == ToUnix(x)
    ensures ToWindows(ToWindows(x)) == ToWindows(x)
  {
  }
}
