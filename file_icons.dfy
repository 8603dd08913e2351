/**
 * The explorer's icon choice (components/fileIcons.ts): a fixed table from extension to
 * emoji, and `getFileIcon`, which gives folders the folder icon and files the icon of the
 * text after their last dot, falling back to the default icon.
 */
module FileIcons {
  import opened Wrappers
  import opened FileTree

  const JsIcon: string := "\U{1F4DC}"
  const BlueBookIcon: string := "\U{1F4D8}"
  const PageIcon: string := "\U{1F4C4}"
  const PuzzleIcon: string := "\U{1F9E9}"
  const ReceiptIcon: string := "\U{1F9FE}"
  const FolderIcon: string := "\U{1F4C1}"

  /** The `fileIcons` record, key by key. */
  const IconTable: map<string, string> := map[
    "js" := JsIcon,
    "ts" := BlueBookIcon,
    "jsx" := PageIcon,
    "tsx" := PuzzleIcon,
    "md" := BlueBookIcon,
    "json" := ReceiptIcon,
    "folder" := FolderIcon,
    "default" := PageIcon
  ]

  /** JavaScript `String.prototype.split(".")`: the pieces between dots, at least one. */
  function SplitOnDots(s: string): (pieces: seq<string>)
    ensures |pieces| >= 1
    ensures '.' !in s ==> pieces == [s]
    ensures '.' in s ==> |pieces| > 1
    ensures forall k :: 0 <= k < |pieces| ==> '.' !in pieces[k]
  {
    if s == [] then [""]
    else
      var rest := SplitOnDots(s[1..]);
      assert s == [s[0]] + s[1..];
      if s[0] == '.' then [""] + rest
      else [[s[0]] + rest[0]] + rest[1..]
  }

  function Last(pieces: seq<string>): string
    requires pieces != []
  {
    pieces[|pieces| - 1]
  }

  /** `name.split(".").pop() || ""`: the last piece; `|| ""` changes nothing, since a piece is a string. */
  function Extension(name: string): string
  {
    Last(SplitOnDots(name))
  }

  /** The text after the last dot: it has no dot, ends the name, and is the whole name or follows a dot. */
  ghost predicate IsLastSegment(name: string, ext: string)
  {
    && '.' !in ext
    && |ext| <= |name|
    && name[|name| - |ext|..] == ext
    && (|ext| < |name| ==> name[|name| - |ext| - 1] == '.')
  }

  lemma {:induction false} ExtensionIsLastSegment(name: string)
    ensures IsLastSegment(name, Extension(name))
  {
    if name != [] {
      var c, t := name[0], name[1..];
      assert name == [c] + t;
      ExtensionIsLastSegment(t);
      ExtensionOfCons(c, t);
      if c == '.' || '.' in t {
        SegmentOfCons(c, t, Extension(t));
      }
    }
  }

  /** How the extension of `c` followed by `t` comes from the extension of `t`. */
  lemma ExtensionOfCons(c: char, t: string)
    ensures Extension([c] + t) == if c != '.' && '.' !in t then [c] + t else Extension(t)
  {
    var s := [c] + t;
    assert s[0] == c && s[1..] == t;
    var rest := SplitOnDots(t);
    if c != '.' && '.' in t {
      assert SplitOnDots(s) == [[c] + rest[0]] + rest[1..];
      assert Last(SplitOnDots(s)) == Last(rest);
    }
  }

  /** The last segment of `t` is still the last segment once a character is put in front. */
  lemma SegmentOfCons(c: char, t: string, e: string)
    requires IsLastSegment(t, e)
    requires c == '.' || '.' in t
    ensures IsLastSegment([c] + t, e)
  {
    var s := [c] + t;
    assert s[|s| - |e|..] == t[|t| - |e|..];
    if |e| < |t| {
      assert s[|s| - |e| - 1] == t[|t| - |e| - 1];
    } else {
      assert t[|t| - |e|..] == t;
    }
  }

  /** At most one suffix has the last-segment shape. */
  lemma LastSegmentUnique(name: string, e1: string, e2: string)
    requires IsLastSegment(name, e1) && IsLastSegment(name, e2)
    ensures e1 == e2
  {
  }

  /** The extension of `base.ext` is `ext`, whatever dots `base` holds. */
  lemma ExtensionOfJoin(base: string, ext: string)
    requires '.' !in ext
    ensures Extension(base + "." + ext) == ext
  {
    var name := base + "." + ext;
    ExtensionIsLastSegment(name);
    assert name[|name| - |ext|..] == ext;
    assert name[|name| - |ext| - 1] == '.';
    LastSegmentUnique(name, Extension(name), ext);
  }

  /** A name without a dot is its own extension. */
  lemma ExtensionWithoutDot(name: string)
    requires '.' !in name
    ensures Extension(name) == name
  {
  }

  /**
   * `getFileIcon`, with the lookup restricted to the record's own keys: a folder gets
   * the folder icon; a file the icon of its extension, or the default one.
   */
  function GetFileIcon(name: string, kind: NodeKind): (icon: string)
    ensures icon in IconTable.Values
    ensures kind == FolderKind ==> icon == FolderIcon
    ensures kind == FileKind && Extension(name) in IconTable ==> icon == IconTable[Extension(name)]
    ensures kind == FileKind && Extension(name) !in IconTable ==> icon == PageIcon
  {
    if kind == FolderKind then IconTable["folder"]
    else
      var ext := Extension(name);
      var found := if ext in IconTable then Some(IconTable[ext]) else None;
      if found.Some? && found.value != "" then found.value else IconTable["default"]
  }

  /** Every extension outside the table, upper-case variants included, gets the default icon. */
  lemma IconOfJoin(base: string, ext: string)
    requires '.' !in ext
    ensures GetFileIcon(base + "." + ext, FileKind) == if ext in IconTable then IconTable[ext] else PageIcon
  {
    ExtensionOfJoin(base, ext);
  }

  /** The four script extensions get their own icons. */
  lemma ScriptExtensions(base: string)
    ensures GetFileIcon(base + ".js", FileKind) == JsIcon
    ensures GetFileIcon(base + ".ts", FileKind) == BlueBookIcon
    ensures GetFileIcon(base + ".jsx", FileKind) == PageIcon
    ensures GetFileIcon(base + ".tsx", FileKind) == PuzzleIcon
  {
    IconOfSuffix(base, ".js", "js");
    IconOfSuffix(base, ".ts", "ts");
    IconOfSuffix(base, ".jsx", "jsx");
    IconOfSuffix(base, ".tsx", "tsx");
  }

  /** Markdown and JSON get their own icons. */
  lemma DocumentExtensions(base: string)
    ensures GetFileIcon(base + ".md", FileKind) == BlueBookIcon
    ensures GetFileIcon(base + ".json", FileKind) == ReceiptIcon
  {
    IconOfSuffix(base, ".md", "md");
    IconOfSuffix(base, ".json", "json");
  }

  /** Case matters, and a file may borrow the folder icon through its extension. */
  lemma SurprisingExtensions(base: string)
    ensures GetFileIcon(base + ".JS", FileKind) == PageIcon
    ensures GetFileIcon(base + ".folder", FileKind) == FolderIcon
  {
    IconOfSuffix(base, ".JS", "JS");
    IconOfSuffix(base, ".folder", "folder");
  }

  /** `IconOfJoin` for a name whose suffix is the dot and the extension. */
  lemma IconOfSuffix(base: string, suffix: string, ext: string)
    requires '.' !in ext && suffix == "." + ext
    ensures GetFileIcon(base + suffix, FileKind) == if ext in IconTable then IconTable[ext] else PageIcon
  {
    assert base + suffix == base + "." + ext;
    IconOfJoin(base, ext);
  }

  /** A name without a dot is its own extension, so it gets its own table entry or the default icon. */
  lemma DotlessName(name: string)
    requires '.' !in name
    ensures GetFileIcon(name, FileKind) == if name in IconTable then IconTable[name] else PageIcon
  {
    ExtensionWithoutDot(name);
  }

  /** A trailing dot leaves the empty extension, which gets the default icon. */
  lemma TrailingDot(base: string)
    ensures Extension(base + ".") == ""
    ensures GetFileIcon(base + ".", FileKind) == PageIcon
  {
    ExtensionOfJoin(base, "");
    IconOfJoin(base, "");
    assert base + "." == base + "." + "";
  }

  // ---------------------------------------------------------------- as written

  /**
   * The members every plain JavaScript object inherits from `Object.prototype`; `fileIcons[ext]`
   * finds them when the record has no own key `ext`.
   */
  const PrototypeMembers: set<string> := {
    "constructor", "toString", "toLocaleString", "valueOf", "hasOwnProperty", "isPrototypeOf",
    "propertyIsEnumerable", "__proto__", "__defineGetter__", "__defineSetter__",
    "__lookupGetter__", "__lookupSetter__"
  }

  /** What indexing the record yields: an own string, an inherited member (a function or object), or undefined. */
  datatype Property = Own(text: string) | Inherited(member: string) | Undefined

  /** What `getFileIcon` hands to the renderer: an icon string, or an inherited member. */
  datatype Rendered = Icon(icon: string) | PrototypeValue(member: string)

  function PropertyLookup(key: string): (p: Property)
    ensures p.Own? <==> key in IconTable
    ensures p.Inherited? <==> key !in IconTable && key in PrototypeMembers
  {
    if key in IconTable then Own(IconTable[key])
    else if key in PrototypeMembers then Inherited(key)
    else Undefined
  }

  /** `fileIcons[ext] || fileIcons.default` on the real object: inherited members are truthy. */
  function GetFileIconAsWritten(name: string, kind: NodeKind): (r: Rendered)
    ensures r.PrototypeValue? <==> kind == FileKind && Extension(name) !in IconTable && Extension(name) in PrototypeMembers
  {
    match kind
    case FolderKind => Icon(IconTable["folder"])
    case FileKind => RenderedFor(Extension(name))
  }

  /** The value `fileIcons[ext] || fileIcons.default` hands on for one extension. */
  function RenderedFor(ext: string): (r: Rendered)
    ensures r.PrototypeValue? <==> ext !in IconTable && ext in PrototypeMembers
  {
    match PropertyLookup(ext)
    case Own(text) => if text != "" then Icon(text) else Icon(IconTable["default"])
    case Inherited(member) => PrototypeValue(member)
    case Undefined => Icon(IconTable["default"])
  }

  /** A file named `<base>.constructor` gets `Object` itself instead of an icon. */
  lemma AsWrittenPrototypeLeak(base: string)
    ensures GetFileIconAsWritten(base + ".constructor", FileKind) == PrototypeValue("constructor")
    ensures GetFileIcon(base + ".constructor", FileKind) == PageIcon
  {
    ExtensionOfJoin(base, "constructor");
    assert base + ".constructor" == base + "." + "constructor";
  }

  /** Away from the inherited member names, the code as written and the own-key lookup agree. */
  lemma AsWrittenAgrees(name: string, kind: NodeKind)
    requires Extension(name) !in PrototypeMembers
    ensures GetFileIconAsWritten(name, kind) == Icon(GetFileIcon(name, kind))
  {
  }
}
