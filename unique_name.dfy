/**
 * How the upload worker names an uploaded file: the name split at its last dot, the numbered
 * candidates " (i)" it tries, and the search for the first candidate no stored file uses yet.
 */
module UniqueName {
  import opened Text

  /** `File(path).name`: the last segment of the path. */
  function FileName(path: string): (r: string)
    ensures '/' !in r
    ensures EndsWith(DropTrailing(path, '/'), r)
    ensures '/' !in path ==> r == path
  {
    var p := DropTrailing(path, '/');
    p[LastIndexOf(p, '/') + 1..]
  }

  /** `fileExtension`: what follows the last dot of the whole name, or "" when there is no dot. */
  function FileExtension(fullName: string): (r: string)
    ensures '.' !in r
    ensures '.' !in fullName ==> r == []
    ensures '.' in fullName ==> EndsWith(fullName, "." + r)
  {
    var dot := LastIndexOf(fullName, '.');
    if dot == -1 then [] else fullName[dot + 1..]
  }

  /** `nameWithoutExtension`: the last path segment up to (not including) its last dot. */
  function NameWithoutExtension(file: string): (r: string)
    ensures '/' !in r
    ensures StartsWith(FileName(file), r)
    ensures '.' !in FileName(file) ==> r == FileName(file)
    ensures '.' in FileName(file) ==> |r| < |FileName(file)| && FileName(file)[|r|] == '.'
  {
    var name := FileName(file);
    var dot := LastIndexOf(name, '.');
    if dot == -1 then name else name[..dot]
  }

  /** A name with a dot and no '/' is its base, a dot and its extension. */
  lemma ExtensionRoundTrip(name: string)
    requires '/' !in name
    ensures '.' in name ==> NameWithoutExtension(name) + "." + FileExtension(name) == name
    ensures '.' !in name ==> NameWithoutExtension(name) == name && FileExtension(name) == []
  {
    assert FileName(name) == name;
    if '.' in name {
      var dot := LastIndexOf(name, '.');
      assert NameWithoutExtension(name) == name[..dot];
      assert FileExtension(name) == name[dot + 1..];
      SplitAround(name, dot);
    }
  }

  /** The extension is empty exactly when the name has no dot or ends with its last dot ("a."). */
  lemma EmptyExtension(name: string)
    ensures FileExtension(name) == [] <==> '.' !in name || name[|name| - 1] == '.'
  {
    if '.' in name {
      var dot := LastIndexOf(name, '.');
      if name[|name| - 1] == '.' {
        assert dot == |name| - 1;
      }
    }
  }

  /** The number tag " (i)". */
  function Suffix(index: nat): (r: string)
    ensures |r| == |NatToString(index)| + 3
  {
    " (" + NatToString(index) + ")"
  }

  /** Where the characters of the tag stand once it is appended to `x`. */
  lemma SuffixLayout(x: string, index: nat)
    ensures var s := x + Suffix(index); var d := NatToString(index);
      |s| == |x| + |d| + 3 && s[|x| + 1] == '(' && s[|s| - 1] == ')'
      && s[|x| + 2..|s| - 1] == d
  {
    var s, d := x + Suffix(index), NatToString(index);
    assert s == x + [' ', '('] + d + [')'];
  }

  /** The number in a trailing tag can be read back: equal tagged strings carry equal numbers. */
  lemma SuffixDetermines(x: string, y: string, a: nat, b: nat)
    requires x + Suffix(a) == y + Suffix(b)
    ensures a == b
  {
    var s := x + Suffix(a);
    var da, db := NatToString(a), NatToString(b);
    SuffixLayout(x, a);
    SuffixLayout(y, b);
    if |da| != |db| {
      assert false;
    }
    assert |x| == |y|;
    NatToStringInjective(a, b);
  }

  /** The base a numbered candidate starts from: the name's base, with its own " (i)" taken off. */
  function RealBase(name: string, index: nat): (r: string)
    ensures var base := NameWithoutExtension(name);
      if EndsWith(base, Suffix(index)) then r + Suffix(index) == base else r == base
  {
    var base := NameWithoutExtension(name);
    var end := Suffix(index);
    if EndsWith(base, end) then base[..|base| - |end|] else base
  }

  /** The name `getName` tries at `index`: the name itself at 0, then "name (i)" or "base (i).ext". */
  function Candidate(name: string, index: nat): string {
    if index == 0 then name
    else if FileExtension(name) == [] then name + Suffix(index)
    else RealBase(name, index) + Tail(index, FileExtension(name))
  }

  /** What a numbered candidate ends with when the name has an extension: " (i).ext". */
  function Tail(index: nat, ext: string): string {
    Suffix(index) + "." + ext
  }

  /** Without an extension, a numbered candidate is the whole name followed by its tag. */
  lemma CandidateShapePlain(name: string, index: nat)
    requires 1 <= index && FileExtension(name) == []
    ensures var c := Candidate(name, index);
      |c| == |name| + |Suffix(index)| && StartsWith(c, name) && EndsWith(c, Suffix(index))
  {
    AppendStartsWith(name, Suffix(index));
    AppendEndsWith(name, Suffix(index));
  }

  /**
   * With an extension, a numbered candidate ends with its tag, "." and the extension, and what
   * comes before them is a prefix of the name's base.
   */
  lemma CandidateShapeExtension(name: string, index: nat)
    requires 1 <= index && FileExtension(name) != []
    ensures var c, tail := Candidate(name, index), Tail(index, FileExtension(name));
      EndsWith(c, tail) && StartsWith(NameWithoutExtension(name), c[..|c| - |tail|])
  {
    var c, r, tail := Candidate(name, index), RealBase(name, index), Tail(index, FileExtension(name));
    assert c[..|c| - |tail|] == r;
    AppendEndsWith(r, tail);
    assert StartsWith(NameWithoutExtension(name), r) by {
      if EndsWith(NameWithoutExtension(name), Suffix(index)) {
        AppendStartsWith(r, Suffix(index));
      }
    }
  }

  /** Numbered candidates of one name are pairwise distinct. */
  lemma CandidateInjective(name: string, i: nat, j: nat)
    requires 1 <= i && 1 <= j
    requires Candidate(name, i) == Candidate(name, j)
    ensures i == j
  {
    var ext := FileExtension(name);
    if ext == [] {
      SuffixDetermines(name, name, i, j);
    } else {
      var u, v := RealBase(name, i) + Suffix(i), RealBase(name, j) + Suffix(j);
      var c := Candidate(name, i);
      assert c == u + ("." + ext) by { TailSplit(RealBase(name, i), i, ext); }
      assert c == v + ("." + ext) by { TailSplit(RealBase(name, j), j, ext); }
      assert u == c[..|c| - |ext| - 1] == v;
      SuffixDetermines(RealBase(name, i), RealBase(name, j), i, j);
    }
  }

  /**
   * A numbered candidate keeps the name's extension, unless the name ends with its last dot:
   * "a." has no extension, and its candidate "a. (1)" has the extension " (1)".
   */
  lemma CandidateKeepsExtension(name: string, index: nat)
    requires 1 <= index
    requires '.' !in name || FileExtension(name) != []
    ensures FileExtension(Candidate(name, index)) == FileExtension(name)
  {
    var ext := FileExtension(name);
    if ext == [] {
      var c := Candidate(name, index);
      assert c == name + " (" + NatToString(index) + ")";
      assert '.' !in c;
    } else {
      var u := RealBase(name, index) + Suffix(index);
      TailSplit(RealBase(name, index), index, ext);
      DotExtension(u, ext);
    }
  }

  /** The tail regrouped: first the tag, then the dot and the extension. */
  lemma TailSplit(r: string, index: nat, ext: string)
    ensures r + Tail(index, ext) == (r + Suffix(index)) + ("." + ext)
    ensures r + Tail(index, ext) == r + Suffix(index) + "." + ext
  {
  }

  /** After the last dot of `u + "." + e` comes `e`, when `e` has no dot. */
  lemma DotExtension(u: string, e: string)
    requires '.' !in e
    ensures FileExtension(u + "." + e) == e
  {
    var s := u + "." + e;
    var dot := LastIndexOf(s, '.');
    assert s[|u|] == '.';
    assert dot == |u|;
    assert s[dot + 1..] == e;
  }

  /** A name whose base already carries " (i)" is its own candidate at i: the tag is not doubled. */
  lemma CandidateKeepsOwnTag(name: string, index: nat)
    requires 1 <= index && '/' !in name && FileExtension(name) != []
    requires EndsWith(NameWithoutExtension(name), Suffix(index))
    ensures Candidate(name, index) == name
  {
    ExtensionRoundTrip(name);
    TailSplit(RealBase(name, index), index, FileExtension(name));
  }

  /** The stored names that are numbered candidates of `name` at `index` or later. */
  ghost function Taken(names: seq<string>, name: string, index: nat): set<string> {
    set s | s in names && exists j: nat :: 1 <= j && index <= j && s == Candidate(name, j)
  }

  /** How far `getName` is from the end of its search: the candidates still taken, plus one before the first. */
  ghost function Remaining(names: seq<string>, name: string, index: nat): nat {
    |Taken(names, name, index)| + (if index == 0 then 1 else 0)
  }

  lemma TakenShrinks(names: seq<string>, name: string, index: nat)
    requires Candidate(name, index) in names
    ensures Remaining(names, name, index + 1) < Remaining(names, name, index)
  {
    var later, now := Taken(names, name, index + 1), Taken(names, name, index);
    assert later <= now;
    if index == 0 {
      assert later == now;
    } else {
      var c := Candidate(name, index);
      assert c in now;
      assert c !in later by {
        if c in later {
          var j: nat :| 1 <= j && index + 1 <= j && c == Candidate(name, j);
          CandidateInjective(name, index, j);
        }
      }
      assert later <= now - {c};
      SubsetSize(later, now - {c});
    }
  }

  lemma SubsetSize(a: set<string>, b: set<string>)
    requires a <= b
    ensures |a| <= |b|
  {
    assert b == a + (b - a);
  }

  /** `getName`: the first candidate from `index` on that no stored name uses. */
  function GetName(names: seq<string>, name: string, index: nat): (r: string)
    ensures r !in names
    decreases Remaining(names, name, index)
  {
    var candidate := Candidate(name, index);
    if candidate in names then
      TakenShrinks(names, name, index);
      GetName(names, name, index + 1)
    else candidate
  }

  /** The name `GetName` picks is the candidate at the least free index from `index` on. */
  lemma {:induction false} GetNameLeastFree(names: seq<string>, name: string, index: nat) returns (i: nat)
    ensures index <= i && GetName(names, name, index) == Candidate(name, i)
    ensures Candidate(name, i) !in names
    ensures forall j :: index <= j < i ==> Candidate(name, j) in names
    decreases Remaining(names, name, index)
  {
    var candidate := Candidate(name, index);
    if candidate in names {
      TakenShrinks(names, name, index);
      i := GetNameLeastFree(names, name, index + 1);
      forall j | index <= j < i
        ensures Candidate(name, j) in names
      {
        if j == index {
          assert Candidate(name, j) == candidate;
        }
      }
    } else {
      i := index;
    }
  }

  /** `getUniqueName`: the name itself when free, else its first free numbered candidate. */
  function GetUniqueName(names: seq<string>, name: string): (r: string)
    ensures r !in names
    ensures name !in names ==> r == name
  {
    GetName(names, name, 0)
  }

  /** A taken name becomes the candidate at the least index i >= 1 that is free. */
  lemma UniqueNameOfTaken(names: seq<string>, name: string) returns (i: nat)
    requires name in names
    ensures 1 <= i && GetUniqueName(names, name) == Candidate(name, i)
    ensures forall j :: 1 <= j < i ==> Candidate(name, j) in names
  {
    i := GetNameLeastFree(names, name, 0);
  }
}
