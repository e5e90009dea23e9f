/** The path computation of the "select active file in Solution Explorer"
    command: deriving the solution name (the solution file's base name) from
    the solution file name, and trimming the active document's absolute path
    to the part that starts at the first path segment equal to that name,
    which is the key the command looks the tree item up by. The trimming
    relies on the document's path containing a folder named like the
    solution; `C:\repo\Foo.sln` gives the name `Foo`, not `repo`.
    The two host reads (`ActiveDocument.FullName`, `Solution.FileName`) are
    the string parameters `fullName` and `solutionFileName`. */
module FileSelectorCommand {
  import opened Wrappers
  import opened DotNetStrings

  /** The path separator the command splits and joins on. */
  const PathSeparator: char := '\\'

  /** The solution file extension stripped from the solution file name. */
  const SolutionExtension: string := ".sln"

  // ---------------------------------------------------------------------------
  // GetSolutionName

  /** `GetSolutionName`: remove every ".sln", split on the separator and take
      the last segment (`LastOrDefault`, which is null only for no segments). */
  function SolutionName(solutionFileName: string): (r: Option<string>)
    ensures r.Some?
  {
    LastOrDefault(Split(Replace(solutionFileName, SolutionExtension, []), PathSeparator))
  }

  /** The solution name is the tail of the extension-stripped file name after
      its last separator, or the whole stripped name when it has none. */
  lemma SolutionNameIsLastSegment(solutionFileName: string)
    ensures IsLastSegment(SolutionName(solutionFileName).value,
                          Replace(solutionFileName, SolutionExtension, []), PathSeparator)
  {
    var t := Replace(solutionFileName, SolutionExtension, []);
    var segs := Split(t, PathSeparator);
    SplitLastIsTail(t, PathSeparator);
    assert SolutionName(solutionFileName) == Some(segs[|segs| - 1]);
  }

  /** For the usual `<directory>\<name>.sln`, the solution name is `<name>`
      whatever the directory is, provided `<name>` holds no separator and no
      ".sln" of its own. */
  lemma SolutionNameOfSolutionFile(directory: string, name: string)
    requires PathSeparator !in name && !Occurs(name, SolutionExtension)
    ensures SolutionName(directory + [PathSeparator] + name + SolutionExtension) == Some(name)
  {
    var f := directory + [PathSeparator] + name + SolutionExtension;
    assert f == directory + [PathSeparator] + (name + SolutionExtension);
    ReplaceAround(directory, PathSeparator, name + SolutionExtension, SolutionExtension, []);
    assert SolutionExtension[1..] == "sln";
    ReplaceTrailing(name, SolutionExtension, []);
    assert name + [] == name;
    var d := Replace(directory, SolutionExtension, []);
    SplitConcat(d, name, PathSeparator);
    SplitNoSeparator(name, PathSeparator);
  }

  /** A file name that is only the extension, or one that ends with a
      separator, gives the empty solution name. */
  lemma SolutionNameCanBeEmpty(directory: string)
    ensures SolutionName(SolutionExtension) == Some([])
    ensures SolutionName(directory + [PathSeparator]) == Some([])
  {
    assert StartsWith(SolutionExtension, SolutionExtension);
    assert SolutionExtension[|SolutionExtension|..] == [];
    var f := directory + [PathSeparator];
    assert f == directory + [PathSeparator] + [];
    ReplaceAround(directory, PathSeparator, [], SolutionExtension, []);
    var d := Replace(directory, SolutionExtension, []);
    SplitConcat(d, [], PathSeparator);
  }

  // ---------------------------------------------------------------------------
  // GetItemName, as a specification

  /** The segments from the first one equal to `name` on, or none when no
      segment equals it. */
  function FromFirstMatch(segs: seq<string>, name: string): (r: seq<string>)
    ensures r == [] <==> name !in segs
    ensures r != [] ==> r[0] == name
  {
    if segs == [] then []
    else if segs[0] == name then segs
    else FromFirstMatch(segs[1..], name)
  }

  /** The kept segments are a tail of the path segments. */
  lemma {:induction false} FromFirstMatchIsTail(segs: seq<string>, name: string)
    ensures var r := FromFirstMatch(segs, name);
      |r| <= |segs| && r == segs[|segs| - |r|..]
    decreases |segs|
  {
    if segs != [] && segs[0] != name {
      FromFirstMatchIsTail(segs[1..], name);
      var r := FromFirstMatch(segs, name);
      assert segs[1..][|segs| - 1 - |r|..] == segs[|segs| - |r|..];
    }
  }

  /** The kept segments start exactly at the first match. */
  lemma {:induction false} FromFirstMatchAt(segs: seq<string>, name: string, i: nat)
    requires i < |segs| && segs[i] == name
    requires forall j :: 0 <= j < i ==> segs[j] != name
    ensures FromFirstMatch(segs, name) == segs[i..]
    decreases i
  {
    if i > 0 {
      assert segs[0] != name;
      FromFirstMatchAt(segs[1..], name, i - 1);
      assert segs[1..][i - 1..] == segs[i..];
    }
  }

  /** Once a segment equal to the solution name has been seen, the
      collection never stops:
      every later segment is kept in order, including later segments equal
      to the solution name; before it is seen, nothing is kept. */
  lemma {:induction false} FromFirstMatchAppend(a: seq<string>, b: seq<string>, name: string)
    ensures name in a ==> FromFirstMatch(a + b, name) == FromFirstMatch(a, name) + b
    ensures name !in a ==> FromFirstMatch(a + b, name) == FromFirstMatch(b, name)
    decreases |a|
  {
    if a == [] {
      assert a + b == b;
    } else {
      assert (a + b)[0] == a[0];
      assert (a + b)[1..] == a[1..] + b;
      if a[0] != name {
        assert name in a ==> name in a[1..];
        FromFirstMatchAppend(a[1..], b, name);
      }
    }
  }

  /** One step of the scan: the flag after a segment is set exactly when it
      was set before or the segment matches, and the segment is appended
      exactly when the flag is then set. */
  lemma FromFirstMatchStep(seen: seq<string>, item: string, name: string,
                           flag: bool, kept: seq<string>)
    requires flag <==> name in seen
    requires kept == FromFirstMatch(seen, name)
    ensures (flag || item == name) <==> name in seen + [item]
    ensures FromFirstMatch(seen + [item], name) == if flag || item == name then kept + [item] else kept
  {
    assert [item][1..] == [];
    assert FromFirstMatch([item], name) == if item == name then [item] else [];
    FromFirstMatchAppend(seen, [item], name);
  }

  /** `GetItemName` as a value: the path segments from the first one equal to
      the solution name on, joined by the separator. */
  function ItemName(fullName: string, solutionName: string): string
  {
    Join([PathSeparator], FromFirstMatch(Split(fullName, PathSeparator), solutionName))
  }

  /** The segments of the item name are exactly the path segments from the
      first one equal to the solution name on. */
  lemma ItemNameSegments(fullName: string, solutionName: string, i: nat)
    requires var segs := Split(fullName, PathSeparator);
      i < |segs| && segs[i] == solutionName &&
      forall j :: 0 <= j < i ==> segs[j] != solutionName
    ensures var segs := Split(fullName, PathSeparator);
      ItemName(fullName, solutionName) == Join([PathSeparator], segs[i..]) &&
      Split(ItemName(fullName, solutionName), PathSeparator) == segs[i..]
  {
    var segs := Split(fullName, PathSeparator);
    FromFirstMatchAt(segs, solutionName, i);
    SplitSeparatorFree(fullName, PathSeparator);
    assert SeparatorFree(segs[i..], PathSeparator) by {
      forall k | 0 <= k < |segs[i..]| ensures PathSeparator !in segs[i..][k] {
        assert segs[i..][k] == segs[i + k];
      }
    }
    SplitJoin(segs[i..], PathSeparator);
  }

  /** Without a segment equal to the solution name the item name is empty;
      for a non-empty solution name this is the only way to get it empty. */
  lemma ItemNameEmpty(fullName: string, solutionName: string)
    ensures solutionName !in Split(fullName, PathSeparator) ==> ItemName(fullName, solutionName) == []
    ensures solutionName != [] ==>
      (ItemName(fullName, solutionName) == [] <==> solutionName !in Split(fullName, PathSeparator))
  {
    if solutionName in Split(fullName, PathSeparator) {
      ItemNameStartsWithName(fullName, solutionName);
    }
  }

  /** The item name is a textual suffix of the full path, hence no longer. */
  lemma ItemNameIsSuffix(fullName: string, solutionName: string)
    ensures var r := ItemName(fullName, solutionName);
      |r| <= |fullName| && fullName[|fullName| - |r|..] == r
  {
    var segs := Split(fullName, PathSeparator);
    var kept := FromFirstMatch(segs, solutionName);
    FromFirstMatchIsTail(segs, solutionName);
    if kept != [] {
      JoinSplitTail(fullName, PathSeparator, |segs| - |kept|);
    }
  }

  /** When the very first segment is the solution name, the item name is the
      whole path unchanged. */
  lemma ItemNameWholePath(fullName: string, solutionName: string)
    requires Split(fullName, PathSeparator)[0] == solutionName
    ensures ItemName(fullName, solutionName) == fullName
  {
    JoinSplit(fullName, PathSeparator);
  }

  /** When a segment matches, the item name starts with the solution name,
      followed by a separator or by nothing. */
  lemma ItemNameStartsWithName(fullName: string, solutionName: string)
    requires solutionName in Split(fullName, PathSeparator)
    ensures var r := ItemName(fullName, solutionName);
      |solutionName| <= |r| && r[..|solutionName|] == solutionName &&
      (|r| == |solutionName| || r[|solutionName|] == PathSeparator)
  {
    var kept := FromFirstMatch(Split(fullName, PathSeparator), solutionName);
    JoinStartsWithFirst([PathSeparator], kept);
    if |kept| == 1 {
      assert Join([PathSeparator], kept) == solutionName;
    } else {
      var r := Join([PathSeparator], kept);
      assert r[|solutionName|..][..1][0] == r[|solutionName|];
    }
  }

  /** Matching is exact equality of whole segments: in a path
      `<root>\<folder>\<file>`, the collection starts at `<folder>` exactly
      when `<folder>` equals the solution name (and `<root>` does not). */
  lemma ItemNameMatchesWholeSegments(root: string, folder: string, file: string, solutionName: string)
    requires PathSeparator !in root && PathSeparator !in folder && PathSeparator !in file
    requires root != solutionName && file != solutionName
    ensures var path := root + [PathSeparator] + folder + [PathSeparator] + file;
      ItemName(path, solutionName) ==
        if folder == solutionName then folder + [PathSeparator] + file else []
  {
    PathOfThree(root, folder, file);
    var segs := [root, folder, file];
    assert segs[1..] == [folder, file] && segs[1..][1..] == [file] && [file][1..] == [];
    if folder == solutionName {
      assert FromFirstMatch(segs, solutionName) == [folder, file];
      assert [folder, file][1..] == [file];
      assert Join([PathSeparator], [folder, file]) == folder + [PathSeparator] + file;
    }
  }

  /** A worked example of `ItemNameMatchesWholeSegments`: matching is
      case-sensitive, so a folder that differs from the solution name only in
      case does not start the collection. The literal path and name are bound
      to parameters so that the verifier does not unfold `Split` on a literal
      string character by character. */
  lemma ItemNameIsCaseSensitive(path: string, solutionName: string)
    requires path == "C:\\foo\\a.cs" && solutionName == "Foo"
    ensures ItemName(path, solutionName) == []
  {
    assert path == "C:" + [PathSeparator] + "foo" + [PathSeparator] + "a.cs";
    assert "foo"[0] != solutionName[0];
    ItemNameMatchesWholeSegments("C:", "foo", "a.cs", solutionName);
  }

  /** An empty solution name (from a file name ".sln" or one ending in a
      separator) matches the empty segment that a doubled separator makes, so
      the item name is everything from that separator on. */
  lemma ItemNameOfEmptySolutionName(head: string, rest: string)
    requires head != [] && PathSeparator !in head
    ensures ItemName(head + [PathSeparator, PathSeparator] + rest, []) == [PathSeparator] + rest
  {
    var path := head + [PathSeparator, PathSeparator] + rest;
    assert path == head + [PathSeparator] + ([] + [PathSeparator] + rest);
    SplitConcat(head, [] + [PathSeparator] + rest, PathSeparator);
    SplitConcat([], rest, PathSeparator);
    SplitNoSeparator(head, PathSeparator);
    var segs := [head] + (Split([], PathSeparator) + Split(rest, PathSeparator));
    assert Split([], PathSeparator) == [[]];
    assert segs[1..] == [[]] + Split(rest, PathSeparator);
    assert FromFirstMatch(segs, []) == [[]] + Split(rest, PathSeparator);
    JoinAppend([PathSeparator], [[]], Split(rest, PathSeparator));
    JoinSplit(rest, PathSeparator);
  }

  /** A three-segment path splits into its three segments. */
  lemma PathOfThree(a: string, b: string, c: string)
    requires PathSeparator !in a && PathSeparator !in b && PathSeparator !in c
    ensures Split(a + [PathSeparator] + b + [PathSeparator] + c, PathSeparator) == [a, b, c]
  {
    assert a + [PathSeparator] + b + [PathSeparator] + c == a + [PathSeparator] + (b + [PathSeparator] + c);
    SplitConcat(a, b + [PathSeparator] + c, PathSeparator);
    SplitConcat(b, c, PathSeparator);
    SplitNoSeparator(a, PathSeparator);
    SplitNoSeparator(b, PathSeparator);
    SplitNoSeparator(c, PathSeparator);
  }

  // ---------------------------------------------------------------------------
  // GetItemName, as the command runs it

  /** `GetItemName`: split the active document's path, scan its segments with
      a flag that is set at the first segment equal to the solution name and
      never cleared, keep every segment while it is set, and join them. */
  method GetItemName(fullName: string, solutionFileName: string) returns (itemName: string)
    ensures itemName == ItemName(fullName, SolutionName(solutionFileName).value)
  {
    var activeDocumentFullPath := Split(fullName, PathSeparator);
    var fullPathFromSolution: seq<string> := [];
    var isItemInSolution := false;
    var solutionName := SolutionName(solutionFileName).value;

    for i := 0 to |activeDocumentFullPath|
      invariant isItemInSolution <==> solutionName in activeDocumentFullPath[..i]
      invariant fullPathFromSolution == FromFirstMatch(activeDocumentFullPath[..i], solutionName)
    {
      var activeDocumentPathItem := activeDocumentFullPath[i];
      assert activeDocumentFullPath[..i + 1] == activeDocumentFullPath[..i] + [activeDocumentPathItem];
      FromFirstMatchStep(activeDocumentFullPath[..i], activeDocumentPathItem, solutionName,
                         isItemInSolution, fullPathFromSolution);

      if activeDocumentPathItem == solutionName {
        isItemInSolution := true;
      }
      if isItemInSolution {
        fullPathFromSolution := fullPathFromSolution + [activeDocumentPathItem];
      }
    }

    assert activeDocumentFullPath[..|activeDocumentFullPath|] == activeDocumentFullPath;
    itemName := Join([PathSeparator], fullPathFromSolution);
  }
}
