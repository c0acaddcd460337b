/** The file tree the instruction check reads, and its check of the three tool
    pointers. */
module AgentFiles {
  import opened Outcomes
  import opened Text

  /** An absolute path: its components from the filesystem root. */
  type Path = seq<string>

  const CANONICAL_NAME: string := "AGENTS.md"

  const TOOL_POINTERS: seq<Path> :=
    [[".claude", "CLAUDE.md"], [".gemini", "GEMINI.md"], [".openai", "AGENTS.md"]]

  const REQUIRED_REFERENCE: string := "../AGENTS.md"
  const MAX_POINTER_BYTES: nat := 1024
  const MAX_POINTER_LINES: nat := 12

  /** A file with its size in bytes and its text, if the bytes are UTF-8. */
  datatype Node = Directory | File(readable: bool, size: nat, content: Option<string>)

  /** What the operating system answers: the node at each real path, the real
      path each path leads to (none for a broken or cyclic one), and which paths
      are symbolic links. */
  datatype FileTree = FileTree(nodes: map<Path, Node>, realPath: map<Path, Path>, links: set<Path>) {
    /** Real paths are those that resolve to themselves. */
    ghost predicate Valid() {
      forall p :: p in realPath ==>
        && realPath[p] in nodes
        && realPath[p] in realPath && realPath[realPath[p]] == realPath[p]
    }

    function Resolve(p: Path): Option<Path> {
      if p in realPath then Some(realPath[p]) else None
    }

    predicate Exists(p: Path) {
      p in realPath
    }

    predicate IsDir(p: Path) {
      p in realPath && realPath[p] in nodes && nodes[realPath[p]].Directory?
    }

    predicate IsFile(p: Path) {
      p in realPath && realPath[p] in nodes && nodes[realPath[p]].File?
    }

    predicate Readable(p: Path) {
      IsFile(p) && nodes[realPath[p]].readable
    }

    function ReadText(p: Path): Option<string> {
      if Readable(p) then nodes[realPath[p]].content else None
    }
  }

  datatype ValidationError =
    | CannotResolveStart
    | NotADirectory(path: Path)
    | CannotResolve(candidate: Path)
    | NotAFile(candidate: Path)
    | Unreadable(candidate: Path)
    | BadRepository
    | BadCanonical
    | MissingPointer(path: Path)
    | BrokenPointer(path: Path)
    | PointerElsewhere(path: Path)
    | PointerNotAFile(path: Path)
    | PointerTooLarge(path: Path)
    | PointerUnreadable(path: Path)
    | PointerWithoutReference(path: Path)
    | PointerTooLong(path: Path)
    | PointerDuplicates(path: Path)
    | BadProbe
    | ProbeEscapes
    | NotExactlyOnce(occurrences: nat)
    | ChainMismatch(expected: seq<Path>, actual: seq<Path>)

  // ---------------------------------------------------------------------
  // Text as the script reads it.
  // ---------------------------------------------------------------------

  /** What str.strip removes: Unicode spaces and the four separator controls. */
  predicate IsStripped(c: char) {
    IsSpace(c) || '\U{1C}' <= c <= '\U{1F}'
  }

  function StripStart(s: string): string {
    if s != "" && IsStripped(s[0]) then StripStart(s[1..]) else s
  }

  function StripEnd(s: string): string {
    if s != "" && IsStripped(s[|s| - 1]) then StripEnd(s[..|s| - 1]) else s
  }

  function Strip(s: string): string {
    StripEnd(StripStart(s))
  }

  predicate AllStripped(s: string) {
    forall i :: 0 <= i < |s| ==> IsStripped(s[i])
  }

  /** Nothing to strip at either end. */
  predicate IsCore(s: string) {
    s == "" || (!IsStripped(s[0]) && !IsStripped(s[|s| - 1]))
  }

  lemma {:induction false} StripStartParts(s: string) returns (pre: string)
    ensures AllStripped(pre) && s == pre + StripStart(s)
    ensures StripStart(s) == "" || !IsStripped(StripStart(s)[0])
  {
    if s != "" && IsStripped(s[0]) {
      var rest := StripStartParts(s[1..]);
      pre := [s[0]] + rest;
    } else {
      pre := "";
    }
  }

  lemma {:induction false} StripEndParts(s: string) returns (post: string)
    ensures AllStripped(post) && s == StripEnd(s) + post
    ensures StripEnd(s) == "" || !IsStripped(StripEnd(s)[|StripEnd(s)| - 1])
  {
    if s != "" && IsStripped(s[|s| - 1]) {
      var rest := StripEndParts(s[..|s| - 1]);
      post := rest + [s[|s| - 1]];
    } else {
      post := "";
    }
  }

  /** Every text is its core inside characters that strip removes. */
  lemma StripParts(s: string) returns (pre: string, post: string)
    ensures AllStripped(pre) && AllStripped(post) && IsCore(Strip(s))
    ensures s == pre + Strip(s) + post
  {
    pre := StripStartParts(s);
    post := StripEndParts(StripStart(s));
  }

  /** What str.splitlines breaks at, with \r\n as one break. */
  predicate IsLineBreak(c: char) {
    || '\n' <= c <= '\r'
    || '\U{1C}' <= c <= '\U{1E}'
    || c == '\U{85}' || c == '\U{2028}' || c == '\U{2029}'
  }

  /** How many lines str.splitlines gives: one a break, and one for what follows
      the last. */
  function LineCount(s: string): nat {
    if s == "" then 0
    else if |s| >= 2 && s[0] == '\r' && s[1] == '\n' then 1 + LineCount(s[2..])
    else if IsLineBreak(s[0]) then 1 + LineCount(s[1..])
    else if |s| == 1 then 1
    else LineCount(s[1..])
  }

  /** The characters the script's text functions treat apart. */
  lemma ControlCharacters(c: char)
    ensures IsLineBreak(c) <==>
            c as int in {0x0A, 0x0B, 0x0C, 0x0D, 0x1C, 0x1D, 0x1E, 0x85, 0x2028, 0x2029}
    ensures IsStripped(c) <==> IsSpace(c) || c as int in {0x1C, 0x1D, 0x1E, 0x1F}
  {
  }

  /** No line ends inside. */
  ghost predicate IsUnbroken(s: string) {
    forall i :: 0 <= i < |s| ==> !IsLineBreak(s[i])
  }

  ghost predicate IsBreak(s: string) {
    s == "\r\n" || (|s| == 1 && IsLineBreak(s[0]))
  }

  lemma {:induction false} LineThenBreak(line: string, end: string, rest: string)
    requires IsUnbroken(line) && IsBreak(end)
    requires end == "\r" && rest != "" ==> rest[0] != '\n'
    ensures LineCount(line + end + rest) == 1 + LineCount(rest)
  {
    var s := line + end + rest;
    if line == "" {
      assert s[|end|..] == rest;
    } else {
      assert s[1..] == line[1..] + end + rest;
      assert s[0] == line[0];
      LineThenBreak(line[1..], end, rest);
    }
  }

  lemma {:induction false} OneLine(line: string)
    requires IsUnbroken(line)
    ensures LineCount(line) == if line == "" then 0 else 1
  {
    if |line| > 1 {
      OneLine(line[1..]);
    }
  }

  /** Each line with the break that ends it. */
  function Weave(lines: seq<(string, string)>): string {
    if lines == [] then "" else lines[0].0 + lines[0].1 + Weave(lines[1..])
  }

  /** A lone \r is not followed by an empty line, whose \n it would swallow. */
  ghost predicate BreaksApart(lines: seq<(string, string)>) {
    forall i :: 0 <= i < |lines| - 1 && lines[i].1 == "\r" ==> lines[i + 1].0 != ""
  }

  /** Ended lines, whatever breaks end them, are counted as their number, and an
      unended rest as one more. */
  lemma {:induction false} LinesCounted(lines: seq<(string, string)>, last: string)
    requires forall i :: 0 <= i < |lines| ==> IsUnbroken(lines[i].0) && IsBreak(lines[i].1)
    requires BreaksApart(lines) && IsUnbroken(last)
    ensures LineCount(Weave(lines) + last) == |lines| + if last == "" then 0 else 1
  {
    if lines == [] {
      assert "" + last == last;
      OneLine(last);
    } else {
      var (line, end) := lines[0];
      var rest := Weave(lines[1..]) + last;
      LinesCounted(lines[1..], last);
      assert Weave(lines) + last == line + end + rest;
      assert end == "\r" && rest != "" ==> !IsLineBreak(rest[0]);
      LineThenBreak(line, end, rest);
    }
  }

  predicate OccursAt(s: string, part: string, i: nat) {
    i + |part| <= |s| && s[i..i + |part|] == part
  }

  predicate Contains(s: string, part: string) {
    exists i :: 0 <= i <= |s| && OccursAt(s, part, i)
  }

  // ---------------------------------------------------------------------
  // Tool pointers.
  // ---------------------------------------------------------------------

  /** The script's checks of one pointer, in order. */
  function PointerDefect(tree: FileTree, path: Path, canonical: Path): Option<ValidationError> {
    if !tree.Exists(path) && path !in tree.links then Some(MissingPointer(path))
    else if path in tree.links then
      if tree.Resolve(path) == None then Some(BrokenPointer(path))
      else if tree.Resolve(path).value != canonical then Some(PointerElsewhere(path))
      else None
    else if !tree.IsFile(path) then Some(PointerNotAFile(path))
    else if tree.nodes[tree.realPath[path]].size > MAX_POINTER_BYTES then Some(PointerTooLarge(path))
    else
      match tree.ReadText(path)
      case None => Some(PointerUnreadable(path))
      case Some(content) =>
        if !Contains(content, REQUIRED_REFERENCE) then Some(PointerWithoutReference(path))
        else if LineCount(content) > MAX_POINTER_LINES then Some(PointerTooLong(path))
        else
          match tree.ReadText(canonical)
          case None => Some(PointerUnreadable(canonical))
          case Some(instructions) =>
            if Strip(content) == Strip(instructions) then Some(PointerDuplicates(path)) else None
  }

  /** A short text of its own that names the canonical file. */
  ghost predicate IsPointerText(content: string, instructions: string) {
    && Contains(content, REQUIRED_REFERENCE)
    && LineCount(content) <= MAX_POINTER_LINES
    && Strip(content) != Strip(instructions)
  }

  /** A pointer is a link to the canonical file itself, or a small regular file
      with a pointer's text. */
  ghost predicate PointsTo(tree: FileTree, path: Path, canonical: Path) {
    if path in tree.links then tree.Resolve(path) == Some(canonical)
    else
      && tree.IsFile(path)
      && tree.nodes[tree.realPath[path]].size <= MAX_POINTER_BYTES
      && exists content, instructions ::
           && tree.ReadText(path) == Some(content)
           && tree.ReadText(canonical) == Some(instructions)
           && IsPointerText(content, instructions)
  }

  lemma PointerExact(tree: FileTree, path: Path, canonical: Path)
    ensures PointerDefect(tree, path, canonical) == None <==> PointsTo(tree, path, canonical)
  {
    hide Contains, Strip, LineCount;
    if tree.ReadText(path).Some? && tree.ReadText(canonical).Some? {
      var content, instructions := tree.ReadText(path).value, tree.ReadText(canonical).value;
      assert IsPointerText(content, instructions) || !IsPointerText(content, instructions);
    }
  }
}
