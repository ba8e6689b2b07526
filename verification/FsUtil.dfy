/** Paths (lib/src/fs/fs_util.cc): splitting an absolute path into its parts and joining parts back.
  * A part list starts with the separator itself, which stands for the root directory. */
module FsUtil {

  const SEPARATOR: string := "/"

  /** `std::string::find(separator, from)`; the length of `s` plays the part of `npos`. */
  function FindSeparator(s: string, from: nat): (i: nat)
    requires from <= |s|
    ensures from <= i <= |s|
    ensures i < |s| ==> s[i] == '/'
    ensures forall k :: from <= k < i ==> s[k] != '/'
    decreases |s| - from
  {
    if from == |s| || s[from] == '/' then from else FindSeparator(s, from + 1)
  }

  function SplitFrom(s: string, from: nat): (parts: seq<string>)
    requires from <= |s|
    ensures parts != []
    decreases |s| - from
  {
    var i := FindSeparator(s, from);
    [s[from..i]] + if i < |s| then SplitFrom(s, i + 1) else []
  }

  /** The parts of a path. Only the first part can contain a separator. */
  function Parts(path: string): (parts: seq<string>)
    requires path != ""
  {
    if path == SEPARATOR then [SEPARATOR] else [SEPARATOR] + SplitFrom(path, 1)
  }

  /** What is left of the parts once the root is dropped: the names to follow from the root. */
  function Names(path: string): (names: seq<string>)
    requires path != ""
  {
    Parts(path)[1..]
  }

  function Joined(parts: seq<string>): string
    requires parts != []
  {
    if |parts| == 1 then parts[0]
    else parts[0] + (if IsRoot(parts[0]) then "" else SEPARATOR) + Joined(parts[1..])
  }

  /** Whether a part is the separator, that is, names the root directory. */
  predicate IsRoot(part: string) {
    |part| == 1 && part[0] == '/'
  }

  predicate SeparatorFree(parts: seq<string>) {
    forall i :: 0 <= i < |parts| ==> '/' !in parts[i]
  }

  method SeparatePath(absPath: string) returns (parts: seq<string>)
    requires absPath != ""
    ensures parts == Parts(absPath)
  {
    hide FindSeparator, SplitFrom;
    parts := [SEPARATOR];
    if absPath == SEPARATOR {
      return;
    }
    var from := 1;
    var index := FindSeparator(absPath, from);
    while index < |absPath|
      invariant from <= |absPath| && index == FindSeparator(absPath, from)
      invariant parts + SplitFrom(absPath, from) == Parts(absPath)
      decreases |absPath| - from
    {
      SplitAt(absPath, from);
      Regroup(parts, absPath[from..index], SplitFrom(absPath, index + 1));
      parts := parts + [absPath[from..index]];
      from := index + 1;
      index := FindSeparator(absPath, from);
    }
    SplitAt(absPath, from);
    parts := parts + [absPath[from..]];
  }

  lemma Regroup(parts: seq<string>, part: string, rest: seq<string>)
    ensures parts + ([part] + rest) == (parts + [part]) + rest
  {
  }

  lemma SplitAt(s: string, from: nat)
    requires from <= |s|
    ensures var i := FindSeparator(s, from);
      SplitFrom(s, from) == if i < |s| then [s[from..i]] + SplitFrom(s, i + 1) else [s[from..]]
  {
    hide FindSeparator;
    assert s[from..|s|] == s[from..];
  }

  /** The loop bound `paths.size() - 1` wraps on an empty list, so callers must pass a part. */
  method Join(parts: seq<string>) returns (joined: string)
    requires parts != []
    ensures joined == Joined(parts)
  {
    joined := "";
    var i := 0;
    while i < |parts| - 1
      invariant 0 <= i <= |parts| - 1
      invariant joined + Joined(parts[i..]) == Joined(parts)
    {
      ghost var before := joined;
      joined := joined + parts[i];
      if !IsRoot(parts[i]) {
        joined := joined + SEPARATOR;
      }
      assert parts[i..][1..] == parts[i + 1..];
      assert before + Joined(parts[i..]) == joined + Joined(parts[i + 1..]);
      i := i + 1;
    }
    joined := joined + parts[|parts| - 1];
  }

  lemma {:induction false} SplitIsSeparatorFree(s: string, from: nat)
    requires from <= |s|
    ensures SeparatorFree(SplitFrom(s, from))
    decreases |s| - from
  {
    hide FindSeparator, SplitFrom;
    var i := FindSeparator(s, from);
    SplitAt(s, from);
    assert '/' !in s[from..i];
    if i < |s| {
      SplitIsSeparatorFree(s, i + 1);
    } else {
      assert s[from..i] == s[from..];
    }
  }

  /** A part other than the root never contains a separator, and only "/" has no such part. */
  lemma NamesAreSeparatorFree(path: string)
    requires path != ""
    ensures SeparatorFree(Names(path))
    ensures Names(path) == [] <==> path == SEPARATOR
  {
    if path != SEPARATOR {
      SplitIsSeparatorFree(path, 1);
      assert Names(path) == SplitFrom(path, 1);
    }
  }

  lemma JoinedCons(head: string, tail: seq<string>)
    requires tail != [] && '/' !in head
    ensures Joined([head] + tail) == head + SEPARATOR + Joined(tail)
  {
    assert ([head] + tail)[1..] == tail;
    assert '/' == SEPARATOR[0];
  }

  lemma JoinedAfterSeparator(s: string, from: nat, i: nat, rest: seq<string>)
    requires from <= i < |s| && s[i] == '/' && '/' !in s[from..i]
    requires rest != [] && Joined(rest) == s[i + 1..]
    ensures Joined([s[from..i]] + rest) == s[from..]
  {
    JoinedCons(s[from..i], rest);
    assert s[from..] == s[from..i] + SEPARATOR + s[i + 1..];
  }

  lemma {:induction false} JoinSplit(s: string, from: nat)
    requires from <= |s|
    ensures Joined(SplitFrom(s, from)) == s[from..]
    decreases |s| - from
  {
    hide FindSeparator, SplitFrom;
    var i := FindSeparator(s, from);
    SplitAt(s, from);
    if i < |s| {
      JoinSplit(s, i + 1);
      JoinedAfterSeparator(s, from, i, SplitFrom(s, i + 1));
    } else {
      assert Joined([s[from..]]) == s[from..];
    }
  }

  /** Joining the parts of an absolute path gives the path back. */
  lemma JoinUndoesSeparate(path: string)
    requires path != "" && path[0] == '/'
    ensures Joined(Parts(path)) == path
  {
    if path != SEPARATOR {
      JoinSplit(path, 1);
      assert Parts(path)[1..] == SplitFrom(path, 1);
      assert path == SEPARATOR + path[1..];
    }
  }

  lemma FindAfterName(prefix: string, name: string, rest: string)
    requires '/' !in name && (rest == "" || rest[0] == '/')
    ensures FindSeparator(prefix + name + rest, |prefix|) == |prefix + name|
    ensures (prefix + name + rest)[|prefix|..|prefix + name|] == name
  {
    hide FindSeparator;
    var s := prefix + name + rest;
    var end := |prefix + name|;
    forall k | |prefix| <= k < end
      ensures s[k] != '/'
    {
      assert s[k] == name[k - |prefix|];
    }
    assert rest != "" ==> s[end] == rest[0];
  }

  lemma {:induction false} SplitJoined(prefix: string, names: seq<string>)
    requires names != [] && SeparatorFree(names)
    ensures SplitFrom(prefix + Joined(names), |prefix|) == names
    decreases |names|
  {
    hide FindSeparator, SplitFrom;
    var name, rest := names[0], names[1..];
    if rest == [] {
      SplitLastName(prefix, name);
      assert names == [name];
    } else {
      JoinedCons(name, rest);
      assert names == [name] + rest;
      SplitJoined(prefix + name + SEPARATOR, rest);
      SplitOffName(prefix, name, Joined(rest), rest);
      assert prefix + (name + SEPARATOR + Joined(rest)) == prefix + name + SEPARATOR + Joined(rest);
    }
  }

  lemma SplitLastName(prefix: string, name: string)
    requires '/' !in name
    ensures SplitFrom(prefix + name, |prefix|) == [name]
  {
    hide FindSeparator;
    FindAfterName(prefix, name, "");
    assert prefix + name + "" == prefix + name;
  }

  lemma SplitOffName(prefix: string, name: string, tail: string, tailParts: seq<string>)
    requires '/' !in name
    requires SplitFrom(prefix + name + SEPARATOR + tail, |prefix + name + SEPARATOR|) == tailParts
    ensures SplitFrom(prefix + name + SEPARATOR + tail, |prefix|) == [name] + tailParts
  {
    hide FindSeparator, SplitFrom;
    var s := prefix + name + SEPARATOR + tail;
    assert s == prefix + name + (SEPARATOR + tail);
    FindAfterName(prefix, name, SEPARATOR + tail);
    SplitAt(s, |prefix|);
  }

  /** Separating joined parts gives them back, for every list but the root followed by one empty name. */
  lemma SeparateUndoesJoin(names: seq<string>)
    requires SeparatorFree(names)
    ensures Joined([SEPARATOR] + names) != ""
    ensures Parts(Joined([SEPARATOR] + names)) == [SEPARATOR] + names <==> names != [""]
    ensures names == [""] ==> Parts(Joined([SEPARATOR] + names)) == [SEPARATOR]
  {
    hide FindSeparator, SplitFrom;
    var parts := [SEPARATOR] + names;
    if names != [] {
      assert parts[1..] == names;
      assert Joined(parts) == SEPARATOR + Joined(names);
      if names != [""] {
        assert Joined(names) != "";
        SplitJoined(SEPARATOR, names);
      }
    }
  }

  /** A concrete path. */
  lemma OneName()
    ensures Names("/f") == ["f"]
  {
    assert FindSeparator("/f", 1) == 2;
    assert "/f"[1..2] == "f";
  }
}
