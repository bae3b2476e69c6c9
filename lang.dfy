/** The language-name helpers shared by the commands
    (internal/commands/lang.go): the default language list, parsing a
    comma-separated list, naming a language after its PO file, and a
    membership scan. */
module Lang {
  import opened Text
  import opened Order

  /** The languages of a DayZ stringtable, in column order. */
  const DefaultLanguages: seq<string> := [
    "english", "czech", "german", "russian", "polish", "hungarian", "italian",
    "spanish", "french", "chinese", "japanese", "portuguese", "chinesesimp"
  ]

  lemma DefaultLanguagesDistinct()
    ensures |DefaultLanguages| == 13 && Distinct(DefaultLanguages)
  {
  }

  /** ParseLanguages: the default list for an empty argument, otherwise the
      comma-separated parts as they are, empty parts and spaces included. */
  function ParseLanguages(s: string): (r: seq<string>)
    ensures s == "" ==> r == DefaultLanguages
    ensures s != "" ==> Join(r, ",") == s
    ensures s != "" ==> forall k :: 0 <= k < |r| ==> !Contains(r[k], ",")
  {
    if s == "" then DefaultLanguages
    else
      JoinSplit(s, ",");
      SplitPiecesAvoidSep(s, ",");
      Split(s, ",")
  }

  /** The path with its trailing slashes removed. */
  function StripSlashes(p: string): (r: string)
    ensures |r| <= |p| && r == p[..|r|]
    ensures r == [] || r[|r| - 1] != '/'
    ensures forall i :: |r| <= i < |p| ==> p[i] == '/'
  {
    if p != [] && p[|p| - 1] == '/' then StripSlashes(p[..|p| - 1]) else p
  }

  /** What follows the last slash. */
  function LastElement(p: string): (r: string)
    ensures |r| <= |p| && r == p[|p| - |r|..]
    ensures '/' !in r
    ensures |r| < |p| ==> p[|p| - |r| - 1] == '/'
  {
    if p == [] || p[|p| - 1] == '/' then []
    else
      var init := LastElement(p[..|p| - 1]);
      assert p[|p| - |init| - 1..] == init + [p[|p| - 1]];
      init + [p[|p| - 1]]
  }

  /** filepath.Base with '/' as the separator: "." for the empty path, "/"
      for a path of slashes, otherwise the last element after trailing
      slashes are dropped. */
  function Base(path: string): (r: string)
    ensures r != []
    ensures r == "/" || '/' !in r
  {
    if path == [] then "."
    else
      var p := LastElement(StripSlashes(path));
      if p == [] then "/" else p
  }

  /** The last element of `dir/name` is `name`. */
  lemma {:induction false} LastElementAfterSlash(dir: string, name: string)
    requires '/' !in name
    ensures LastElement(dir + "/" + name) == name
    decreases |name|
  {
    var p := dir + "/" + name;
    if name == [] {
      assert p[|p| - 1] == '/';
    } else {
      var init := name[..|name| - 1];
      assert p[..|p| - 1] == dir + "/" + init;
      LastElementAfterSlash(dir, init);
      assert init + [name[|name| - 1]] == name;
    }
  }

  /** ExtractLanguageName: the base name with one ".po" suffix removed, and
      any other base name unchanged. */
  function ExtractLanguageName(path: string): (r: string)
    ensures HasSuffix(Base(path), ".po") ==> r + ".po" == Base(path)
    ensures !HasSuffix(Base(path), ".po") ==> r == Base(path)
  {
    TrimSuffix(Base(path), ".po")
  }

  /** A file `name.po` in any directory is named after `name`, even when
      `name` itself ends in ".po": only one suffix goes. */
  lemma ExtractOfPoFile(dir: string, name: string)
    requires '/' !in name
    ensures ExtractLanguageName(dir + "/" + name + ".po") == name
  {
    var path := dir + "/" + name + ".po";
    assert path == dir + "/" + (name + ".po");
    assert StripSlashes(path) == path;
    LastElementAfterSlash(dir, name + ".po");
    assert Base(path) == name + ".po";
    assert HasSuffix(name + ".po", ".po");
    assert (name + ".po")[..|name|] == name;
  }

  /** ContainsLanguage: an exact, case-sensitive scan. */
  function ContainsLanguage(list: seq<string>, lang: string): (r: bool)
    ensures r <==> lang in list
  {
    if list == [] then false
    else list[0] == lang || ContainsLanguage(list[1..], lang)
  }
}
