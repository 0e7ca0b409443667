/**
 * The file that hands the picked uris to the upload worker: the picker writes one path and a
 * line feed per uri, and the worker reads it back with `BufferedReader.readLine` while the
 * reader is `ready()`, that is, while unread characters remain.
 */
module UriList {

  predicate IsTerminator(c: char) {
    c == '\n' || c == '\r'
  }

  /** A path the round trip carries: it holds no line terminator. */
  predicate IsLine(p: string) {
    forall i :: 0 <= i < |p| ==> !IsTerminator(p[i])
  }

  /** The position of the first line terminator, or the length when there is none. */
  function LineEnd(s: string): (i: nat)
    ensures i <= |s| && IsLine(s[..i])
    ensures i < |s| ==> IsTerminator(s[i])
  {
    if s == [] || IsTerminator(s[0]) then 0
    else
      var i := 1 + LineEnd(s[1..]);
      assert s[..i] == [s[0]] + s[1..][..i - 1];
      i
  }

  /**
   * `readLine()` on unread text `s`: the characters before the first '\n', '\r' or "\r\n", and
   * the text left after that terminator (a final line need not have one).
   */
  function ReadLine(s: string): (r: (string, string))
    requires s != []
    ensures IsLine(r.0) && |r.1| < |s|
    ensures StartsWithLine(s, r.0) && EndsWithRest(s, r.1)
  {
    var i := LineEnd(s);
    if i == |s| then (s, [])
    else if s[i] == '\r' && i + 1 < |s| && s[i + 1] == '\n' then (s[..i], s[i + 2..])
    else (s[..i], s[i + 1..])
  }

  predicate StartsWithLine(s: string, line: string) {
    |line| <= |s| && s[..|line|] == line
  }

  predicate EndsWithRest(s: string, rest: string) {
    |rest| <= |s| && s[|s| - |rest|..] == rest
  }

  /** The lines the reader loop collects from text `s`. */
  function Lines(s: string): (r: seq<string>)
    ensures forall i :: 0 <= i < |r| ==> IsLine(r[i])
    ensures |r| <= |s|
    ensures s == [] <==> r == []
    decreases |s|
  {
    if s == [] then [] else [ReadLine(s).0] + Lines(ReadLine(s).1)
  }

  /** The text the picker writes: each path followed by a line feed. */
  function Encode(paths: seq<string>): (r: string)
    ensures paths == [] <==> r == []
  {
    if paths == [] then [] else paths[0] + "\n" + Encode(paths[1..])
  }

  /** A line followed by a line feed is read back whole, leaving exactly the text after it. */
  lemma ReadLineOf(p: string, rest: string)
    requires IsLine(p)
    ensures ReadLine(p + "\n" + rest) == (p, rest)
  {
    var s := p + "\n" + rest;
    LineEndOf(p, "\n" + rest);
    assert s == p + ("\n" + rest);
    assert s[..|p|] == p;
    assert s[|p| + 1..] == rest;
  }

  lemma {:induction false} LineEndOf(p: string, t: string)
    requires IsLine(p) && t != [] && IsTerminator(t[0])
    ensures LineEnd(p + t) == |p|
  {
    if p != [] {
      assert (p + t)[1..] == p[1..] + t;
      LineEndOf(p[1..], t);
    }
  }

  /** Reading back what the picker wrote yields the paths, when no path holds a line terminator. */
  lemma {:induction false} ReadBack(paths: seq<string>)
    requires forall i :: 0 <= i < |paths| ==> IsLine(paths[i])
    ensures Lines(Encode(paths)) == paths
  {
    if paths != [] {
      ReadLineOf(paths[0], Encode(paths[1..]));
      ReadBack(paths[1..]);
    }
  }

  /** The picker's writer loop (`MainView`): appends each path and a line feed. */
  method WriteUris(paths: seq<string>) returns (text: string)
    ensures text == Encode(paths)
  {
    text := [];
    var i := 0;
    while i < |paths|
      invariant i <= |paths|
      invariant text + Encode(paths[i..]) == Encode(paths)
    {
      assert paths[i..][1..] == paths[i + 1..];
      text := text + paths[i] + "\n";
      i := i + 1;
    }
    assert paths[i..] == [];
  }

  /** The worker's reader loop: collects `readLine()` while `ready()`. */
  method ReadUris(text: string) returns (uris: seq<string>)
    ensures uris == Lines(text)
  {
    uris := [];
    var rest := text;
    while rest != []
      invariant uris + Lines(rest) == Lines(text)
      decreases |rest|
    {
      var (line, next) := ReadLine(rest);
      uris := uris + [line];
      rest := next;
    }
  }
}
