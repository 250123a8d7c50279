/** Where a key lives on disk (src/LocalYAMLStorage.cpp:53-87). Paths are appended as Boost.Filesystem v3 does. */
module KeyPaths {
  import opened ConfigTypes

  const GLOBAL: string := "global"
  const EXTENSION: string := ".yaml"

  /** path::operator/=: a separator is added between two non-empty names that lack one. */
  function Append(p: string, e: string): string {
    if e == "" then p
    else if p == "" || p[|p| - 1] == '/' || e[0] == '/' then p + e
    else p + "/" + e
  }

  function AppendAll(parts: seq<string>): string {
    if parts == [] then "" else Append(AppendAll(parts[..|parts| - 1]), parts[|parts| - 1])
  }

  /** The file of a key, relative to the root. No part holds a dot, so replace_extension only appends. */
  function FileOf(k: Key): string {
    var p := AppendAll(k[..|k| - 1]);
    (if p == "" then GLOBAL else p) + EXTENSION
  }

  function NameOf(k: Key): string {
    k[|k| - 1]
  }

  method TranslateKeyToPathPair(key: Key) returns (file: string, name: string)
    ensures file == FileOf(key) && name == NameOf(key)
    ensures Addressable(key) ==> file == (if |key| == 1 then "global" else Join(key[..|key| - 1], '/')) + ".yaml"
    ensures name == key[|key| - 1]
  {
    if Addressable(key) {
      PlaceIs(key);
    }
    var output := "";
    for i := 0 to |key| - 1
      invariant output == AppendAll(key[..i])
    {
      assert key[..i + 1][..i] == key[..i];
      output := Append(output, key[i]);
    }
    if output == "" {
      output := Append(output, GLOBAL);
    }
    file, name := output + EXTENSION, key[|key| - 1];
  }

  /** replace_extension(""): cuts at the last dot of the file name, if there is one. */
  function CutAtDot(p: string): Option<string> {
    if p == "" || p[|p| - 1] == '/' then None
    else if p[|p| - 1] == '.' then Some(p[..|p| - 1])
    else CutAtDot(p[..|p| - 1])
  }

  function WithoutExtension(p: string): string {
    match CutAtDot(p)
    case None => p
    case Some(q) => q
  }

  predicate Kept(elem: string) {
    elem != "" && elem != GLOBAL
  }

  function Filter(elems: seq<string>): seq<string> {
    if elems == [] then [] else (if Kept(elems[0]) then [elems[0]] else []) + Filter(elems[1..])
  }

  /** The key text built from the kept path elements and the name. */
  function Dotted(elems: seq<string>, name: string): string {
    if elems == [] then name else elems[0] + "." + Dotted(elems[1..], name)
  }

  function KeyText(root: string, valuepath: string, name: string): string {
    var stem := WithoutExtension(valuepath);
    Dotted(Filter(Split(if |root| <= |stem| then stem[|root|..] else "", '/')), name)
  }

  /** A value's path starts with the root, so the first occurrence of the root is at its start. */
  method TranslatePathToKey(root: string, valuepath: string, name: string) returns (text: string)
    requires root <= WithoutExtension(valuepath)
    ensures text == KeyText(root, valuepath, name)
  {
    var stripped := WithoutExtension(valuepath)[|root|..];
    var elems := Split(stripped, '/');
    text := "";
    for i := 0 to |elems|
      invariant text + Dotted(Filter(elems[i..]), name) == Dotted(Filter(elems), name)
    {
      DottedAt(elems, i, name);
      if |elems[i]| > 0 && elems[i] != GLOBAL {
        ghost var rest := Dotted(Filter(elems[i + 1..]), name);
        assert text + (elems[i] + "." + rest) == text + elems[i] + "." + rest;
        text := text + elems[i] + ".";
      }
    }
    text := text + name;
  }

  lemma DottedAt(elems: seq<string>, i: nat, name: string)
    requires i < |elems|
    ensures Dotted(Filter(elems[i..]), name) ==
            var rest := Dotted(Filter(elems[i + 1..]), name);
            if Kept(elems[i]) then elems[i] + "." + rest else rest
  {
    assert elems[i..][1..] == elems[i + 1..];
    var rest := Filter(elems[i + 1..]);
    assert [] + rest == rest;
    assert ([elems[i]] + rest)[1..] == rest;
  }

  /** The key read back from where `k` was written, under any root. */
  function ReadBack(root: string, k: Key): seq<string> {
    Parse(KeyText(root, Append(root, FileOf(k)), NameOf(k)))
  }

  /** The keys that can be told apart on disk. */
  predicate Addressable(k: Key) {
    k != [""] && forall i | 0 <= i < |k| - 1 :: Kept(k[i]) && '/' !in k[i]
  }

  // ----- Reading back -----

  lemma CutStep(p: string, c: char)
    ensures c != '.' && c != '/' ==> CutAtDot(p + [c]) == CutAtDot(p)
    ensures c == '.' ==> CutAtDot(p + [c]) == Some(p)
  {
    assert (p + [c])[..|p|] == p;
  }

  lemma CutPlain(x: string)
    ensures CutAtDot(x + EXTENSION) == Some(x)
  {
    CutStep(x, '.');
    CutStep(x + ".", 'y');
    CutStep(x + "." + "y", 'a');
    CutStep(x + "." + "y" + "a", 'm');
    CutStep(x + "." + "y" + "a" + "m", 'l');
    assert x + EXTENSION == x + "." + "y" + "a" + "m" + "l";
  }

  lemma {:induction false} FilterAll(elems: seq<string>)
    ensures forall e | e in Filter(elems) :: e in elems && Kept(e)
    ensures (forall e | e in elems :: Kept(e)) ==> Filter(elems) == elems
  {
    if elems != [] {
      FilterAll(elems[1..]);
    }
  }

  lemma {:induction false} DottedIsRender(elems: seq<string>, name: string)
    ensures Dotted(elems, name) == Render(elems + [name])
  {
    if elems == [] {
      assert elems + [name] == [name];
    } else {
      DottedIsRender(elems[1..], name);
      assert (elems + [name])[1..] == elems[1..] + [name];
    }
  }

  lemma {:induction false} SplitAvoids(s: string, d: char, c: char)
    requires c !in s
    ensures forall p | p in Split(s, d) :: c !in p
  {
    if s != "" {
      SplitAvoids(s[1..], d, c);
    }
  }

  lemma {:induction false} AppendAllAvoids(parts: seq<string>)
    requires forall p | p in parts :: '.' !in p
    ensures '.' !in AppendAll(parts)
  {
    if parts != [] {
      assert parts[|parts| - 1] in parts;
      AppendAllAvoids(parts[..|parts| - 1]);
    }
  }

  /** The kept path elements of the file of a key: the directories and the file's own name. */
  function Directories(k: Key): seq<string> {
    var p := AppendAll(k[..|k| - 1]);
    Filter(Split(if p == "" then GLOBAL else p, '/'))
  }

  lemma SplitUnderRoot(root: string, stem: string)
    requires stem != ""
    ensures root <= Append(root, stem)
    ensures Filter(Split(Append(root, stem)[|root|..], '/')) == Filter(Split(stem, '/'))
  {
    var full := Append(root, stem);
    if full == root + stem {
      assert full[|root|..] == stem;
    } else {
      assert full[|root|..] == "" + ['/'] + stem;
      SplitPrefix("", stem, '/');
      assert ([""] + Split(stem, '/'))[1..] == Split(stem, '/');
    }
  }

  lemma ExtensionUnderRoot(root: string, stem: string)
    requires stem != ""
    ensures WithoutExtension(Append(root, stem + EXTENSION)) == Append(root, stem)
  {
    CutPlain(Append(root, stem));
    assert Append(root, stem + EXTENSION) == Append(root, stem) + EXTENSION;
  }

  lemma ReadBackParts(root: string, k: Key)
    ensures KeyText(root, Append(root, FileOf(k)), NameOf(k)) == Render(Directories(k) + [NameOf(k)])
    ensures root <= WithoutExtension(Append(root, FileOf(k)))
  {
    var p := AppendAll(k[..|k| - 1]);
    var stem := if p == "" then GLOBAL else p;
    DottedIsRender(Directories(k), NameOf(k));
    ExtensionUnderRoot(root, stem);
    SplitUnderRoot(root, stem);
  }

  lemma DirectoriesKept(k: Key)
    ensures forall e | e in Directories(k) :: Kept(e) && '/' !in e && '.' !in e
  {
    var p := AppendAll(k[..|k| - 1]);
    var stem := if p == "" then GLOBAL else p;
    AppendAllAvoids(k[..|k| - 1]);
    SplitAvoids(stem, '/', '.');
    FilterAll(Split(stem, '/'));
  }

  /** A path of such elements, none of which needs care. */
  predicate Plain(p: string) {
    p != "" && p[|p| - 1] != '/'
  }

  lemma AppendPlain(p: string, e: string)
    requires e != "" && '/' !in e && (p == "" || Plain(p))
    ensures Append(p, e) == if p == "" then e else p + "/" + e
    ensures Plain(Append(p, e))
  {
    assert e[0] in e && e[|e| - 1] in e;
    assert Append(p, e)[|Append(p, e)| - 1] == e[|e| - 1];
  }

  lemma {:induction false} AppendAllIsJoin(parts: seq<string>)
    requires forall p | p in parts :: p != "" && '/' !in p
    ensures AppendAll(parts) == Join(parts, '/')
    ensures parts != [] ==> Plain(AppendAll(parts))
  {
    if parts != [] {
      var n := |parts| - 1;
      var before := parts[..n];
      assert forall p | p in before :: p in parts;
      assert parts == before + [parts[n]];
      AppendAllIsJoin(before);
      AppendPlain(AppendAll(before), parts[n]);
      JoinSnoc(before, parts[n]);
    }
  }

  lemma {:induction false} JoinSnoc(parts: seq<string>, last: string)
    ensures Join(parts + [last], '/') == if parts == [] then last else Join(parts, '/') + "/" + last
  {
    if parts == [] {
      assert parts + [last] == [last];
    } else {
      JoinSnoc(parts[1..], last);
      assert (parts + [last])[1..] == parts[1..] + [last];
      if |parts| > 1 {
        assert parts[0] + ['/'] + (Join(parts[1..], '/') + "/" + last) ==
               parts[0] + ['/'] + Join(parts[1..], '/') + "/" + last;
      }
    }
  }

  /** The place of an addressable key, spelled out. */
  lemma PlaceIs(k: Key)
    requires Addressable(k)
    ensures FileOf(k) == (if |k| == 1 then "global" else Join(k[..|k| - 1], '/')) + ".yaml"
    ensures NameOf(k) == k[|k| - 1]
  {
    AppendAllIsJoin(k[..|k| - 1]);
  }

  lemma AddressableDirectories(k: Key)
    requires forall i | 0 <= i < |k| - 1 :: Kept(k[i]) && '/' !in k[i]
    ensures Directories(k) == k[..|k| - 1]
  {
    var init := k[..|k| - 1];
    AppendAllIsJoin(init);
    if init == [] {
      SplitPlain(GLOBAL, '/');
      assert Filter([GLOBAL]) == Filter([GLOBAL][1..]);
    } else {
      SplitJoin(init, '/');
      FilterAll(init);
    }
  }

  lemma ReadBackElements(root: string, k: Key)
    ensures var parts := Directories(k) + [NameOf(k)];
            ReadBack(root, k) == if parts == [""] then [] else parts
  {
    ReadBackParts(root, k);
    DirectoriesKept(k);
    var parts := Directories(k) + [NameOf(k)];
    assert NameOf(k) in k;
    assert forall p | p in parts :: '.' !in p;
    SplitJoin(parts, '.');
    RenderEmpty(parts);
  }

  lemma ElementsIff(k: Key)
    ensures Directories(k) == k[..|k| - 1] <==> forall i | 0 <= i < |k| - 1 :: Kept(k[i]) && '/' !in k[i]
  {
    DirectoriesKept(k);
    if Directories(k) == k[..|k| - 1] {
      assert forall i | 0 <= i < |k| - 1 :: k[i] == Directories(k)[i] && Directories(k)[i] in Directories(k);
    }
    if forall i | 0 <= i < |k| - 1 :: Kept(k[i]) && '/' !in k[i] {
      AddressableDirectories(k);
    }
  }

  lemma SnocEqual(a: seq<string>, k: seq<string>)
    requires k != []
    ensures a + [k[|k| - 1]] == k <==> a == k[..|k| - 1]
  {
    assert (a + [k[|k| - 1]])[..|a|] == a;
    assert k[..|k| - 1] + [k[|k| - 1]] == k;
  }

  /** Which keys are addressable: no part but the last is empty, holds a slash or is `global`. */
  lemma AddressableIff(k: Key)
    ensures Addressable(k) <==>
            k != [""] && forall i | 0 <= i < |k| - 1 :: k[i] != "" && k[i] != "global" && '/' !in k[i]
  {
  }

  /** A key is read back from its own file and name exactly when it is addressable. */
  lemma ReadBackIff(root: string, k: Key)
    ensures ReadBack(root, k) == k <==> Addressable(k)
  {
    ReadBackElements(root, k);
    SnocEqual(Directories(k), k);
    ElementsIff(k);
  }

  lemma RenderEmpty(parts: seq<string>)
    requires parts != []
    ensures Render(parts) == "" <==> parts == [""]
  {
  }

  /** So addressable keys never share a place on disk. */
  lemma PlacesDistinct(j: Key, k: Key)
    requires Addressable(j) && Addressable(k) && FileOf(j) == FileOf(k) && NameOf(j) == NameOf(k)
    ensures j == k
  {
    ReadBackIff("", j);
    ReadBackIff("", k);
  }
}
