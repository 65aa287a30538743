/** Two line automata that read one grammar: the splitter of a multi-module test (`split_modules`,
    src/conformance.rs:563-653) and the collector of its Kotlin sources (`kotlin_source_blocks`,
    src/conformance.rs:712-769). Lines come already classified. */
module LineAutomata {
  import opened Options
  import opened Modules

  /** A header that does not read as a name with at most three closed groups has no `groups`. */
  datatype Line =
    | Header(name: string, groups: Option<seq<seq<string>>>)
    | JavaFile(leaf: string)
    | KotlinFile(stem: string)
    | OtherFile
    | Remark(text: string)
    | Code(text: string)

  datatype OpenFile = OpenFile(name: string, isJava: bool)

  datatype Block = Block(module_: Option<string>, name: string, source: string)

  // ---------------------------------------------------------------- the splitter

  datatype Split = Split(mods: seq<Module>, file: Option<OpenFile>, text: string)

  function Last(mods: seq<Module>): Module
    requires mods != []
  {
    mods[|mods| - 1]
  }

  function AddSource(mods: seq<Module>, file: OpenFile, text: string): seq<Module>
    requires mods != []
  {
    var m := Last(mods);
    mods[|mods| - 1 := if file.isJava then m.(javaFiles := m.javaFiles + [(file.name, text)])
                       else m.(files := m.files + [(file.name, text)])]
  }

  /** Closing the open file. With no module yet, the file is dropped and its text stays. */
  function SplitFlush(s: Split): (r: Split)
    ensures r.file.None?
  {
    if s.file.None? then s
    else if s.mods == [] then s.(file := None)
    else Split(AddSource(s.mods, s.file.value, s.text), None, "")
  }

  function Group(groups: seq<seq<string>>, i: nat): seq<string> { if i < |groups| then groups[i] else [] }

  function NewModule(name: string, groups: seq<seq<string>>): Module
  {
    Module(name, Group(groups, 0), Group(groups, 1), Group(groups, 2), [], [])
  }

  function SplitStep(s: Split, line: Line): Option<Split>
  {
    match line
    case Header(name, groups) =>
      if groups.None? then None
      else
        var flushed := SplitFlush(s);
        Some(flushed.(mods := flushed.mods + [NewModule(name, groups.value)]))
    case JavaFile(leaf) => Some(SplitFlush(s).(file := Some(OpenFile(leaf, true))))
    case KotlinFile(stem) => Some(SplitFlush(s).(file := Some(OpenFile(stem, false))))
    case OtherFile => None
    case Remark(text) => Some(if s.file.Some? then s.(text := s.text + text + "\n") else s)
    case Code(text) =>
      Some(
        if s.file.Some? then s.(text := s.text + text + "\n")
        else if s.mods != [] then
          s.(file := Some(OpenFile(Last(s.mods).name, false)), text := s.text + text + "\n")
        else s)
  }

  function SplitFrom(s: Split, lines: seq<Line>): Option<Split>
    decreases lines
  {
    if lines == [] then Some(s)
    else
      var next := SplitStep(s, lines[0]);
      if next.None? then None else SplitFrom(next.value, lines[1..])
  }

  const SPLIT_START := Split([], None, "")

  predicate Sourced(mods: seq<Module>) { exists m <- mods :: m.files != [] || m.javaFiles != [] }

  function SplitModules(lines: seq<Line>): Option<seq<Module>>
  {
    var end := SplitFrom(SPLIT_START, lines);
    if end.None? then None
    else
      var mods := SplitFlush(end.value).mods;
      if |mods| < 2 || !Sourced(mods) then None else Some(mods)
  }

  method SplitModulesLoop(lines: seq<Line>) returns (r: Option<seq<Module>>)
    ensures r == SplitModules(lines)
  {
    var mods: seq<Module>, file: Option<OpenFile>, text: string := [], None, "";
    for i := 0 to |lines|
      invariant SplitFrom(SPLIT_START, lines) == SplitFrom(Split(mods, file, text), lines[i..])
    {
      assert lines[i..][0] == lines[i] && lines[i..][1..] == lines[i + 1..];
      match lines[i] {
        case Header(name, groups) =>
          mods, file, text := SplitFlushed(mods, file, text);
          if groups.None? {
            return None;
          }
          mods := mods + [NewModule(name, groups.value)];
        case JavaFile(leaf) =>
          mods, file, text := SplitFlushed(mods, file, text);
          file := Some(OpenFile(leaf, true));
        case KotlinFile(stem) =>
          mods, file, text := SplitFlushed(mods, file, text);
          file := Some(OpenFile(stem, false));
        case OtherFile =>
          return None;
        case Remark(line) =>
          if file.Some? {
            text := text + line + "\n";
          }
        case Code(line) =>
          if file.Some? {
            text := text + line + "\n";
          } else if mods != [] {
            file := Some(OpenFile(Last(mods).name, false));
            text := text + line + "\n";
          }
      }
    }
    mods, file, text := SplitFlushed(mods, file, text);
    if |mods| < 2 || !Sourced(mods) {
      return None;
    }
    return Some(mods);
  }

  method SplitFlushed(mods: seq<Module>, file: Option<OpenFile>, text: string)
    returns (mods': seq<Module>, file': Option<OpenFile>, text': string)
    ensures Split(mods', file', text') == SplitFlush(Split(mods, file, text))
  {
    mods', file', text' := mods, None, text;
    if file.Some? && mods != [] {
      mods', text' := AddSource(mods, file.value, text), "";
    }
  }

  // ---------------------------------------------------------------- the collector

  datatype Collect = Collect(
      blocks: seq<Block>, module_: Option<string>, file: Option<string>, ignoring: bool, body: string)

  function CollectFlush(c: Collect): (r: Collect)
    ensures r.file.None? && r.body == "" && r.module_ == c.module_ && r.ignoring == c.ignoring
  {
    c.(
      blocks := if c.file.Some? then c.blocks + [Block(c.module_, c.file.value, c.body)] else c.blocks,
      file := None,
      body := "")
  }

  function CollectStep(c: Collect, line: Line): Collect
  {
    match line
    case Header(name, _) => CollectFlush(c).(module_ := Some(name), ignoring := false)
    case KotlinFile(stem) => CollectFlush(c).(file := Some(stem), ignoring := false)
    case JavaFile(_) => CollectFlush(c).(ignoring := true)
    case OtherFile => CollectFlush(c).(ignoring := true)
    case Remark(text) => if c.file.Some? then c.(body := c.body + text + "\n") else c
    case Code(text) =>
      if c.file.Some? then c.(body := c.body + text + "\n")
      else if c.module_.Some? && !c.ignoring then c.(file := c.module_, body := c.body + text + "\n")
      else c
  }

  function CollectFrom(c: Collect, lines: seq<Line>): Collect
    decreases lines
  {
    if lines == [] then c else CollectFrom(CollectStep(c, lines[0]), lines[1..])
  }

  const COLLECT_START := Collect([], None, None, false, "")

  /** The blocks of a source that mentions a partition marker. */
  function KotlinBlocks(lines: seq<Line>): seq<Block> { CollectFlush(CollectFrom(COLLECT_START, lines)).blocks }

  /** A source: its text, its lines, and whether the text contains a marker anywhere. */
  datatype Source = Source(text: string, lines: seq<Line>, mentionsMarker: bool)

  method KotlinSourceBlocks(source: Source, fallbackStem: string) returns (blocks: seq<Block>)
    ensures blocks ==
      if source.mentionsMarker then KotlinBlocks(source.lines) else [Block(None, fallbackStem, source.text)]
  {
    if !source.mentionsMarker {
      return [Block(None, fallbackStem, source.text)];
    }
    var lines := source.lines;
    var c := COLLECT_START;
    for i := 0 to |lines|
      invariant CollectFrom(COLLECT_START, lines) == CollectFrom(c, lines[i..])
    {
      assert lines[i..][0] == lines[i] && lines[i..][1..] == lines[i + 1..];
      match lines[i] {
        case Header(name, _) =>
          c := CollectFlush(c);
          c := c.(module_ := Some(name), ignoring := false);
        case KotlinFile(stem) =>
          c := CollectFlush(c);
          c := c.(file := Some(stem), ignoring := false);
        case JavaFile(_) =>
          c := CollectFlush(c);
          c := c.(ignoring := true);
        case OtherFile =>
          c := CollectFlush(c);
          c := c.(ignoring := true);
        case Remark(text) =>
          if c.file.Some? {
            c := c.(body := c.body + text + "\n");
          }
        case Code(text) =>
          if c.file.Some? {
            c := c.(body := c.body + text + "\n");
          } else if c.module_.Some? && !c.ignoring {
            c := c.(file := c.module_, body := c.body + text + "\n");
          }
      }
    }
    c := CollectFlush(c);
    blocks := c.blocks;
  }

  // ---------------------------------------------------------------- what the splitter accepts

  predicate Refused(line: Line) { line.OtherFile? || (line.Header? && line.groups.None?) }

  predicate Opens(line: Line) { line.JavaFile? || line.KotlinFile? || line.Code? }

  /** What a header says of its module: its name, dependencies, friends and `dependsOn` targets. */
  type Head = (string, seq<string>, seq<string>, seq<string>)

  function HeadsOf(line: Line): seq<Head>
  {
    if line.Header? && line.groups.Some? then
      var groups := line.groups.value;
      [(line.name, Group(groups, 0), Group(groups, 1), Group(groups, 2))]
    else []
  }

  function HeaderHeads(lines: seq<Line>): seq<Head>
  {
    if lines == [] then [] else HeadsOf(lines[0]) + HeaderHeads(lines[1..])
  }

  function ModuleHeads(mods: seq<Module>): (r: seq<Head>)
    ensures |r| == |mods| && forall i :: 0 <= i < |r| ==>
      r[i] == (mods[i].name, mods[i].deps, mods[i].friends, mods[i].dependsOn)
  {
    seq(|mods|, i requires 0 <= i < |mods| => (mods[i].name, mods[i].deps, mods[i].friends, mods[i].dependsOn))
  }

  predicate HasHeader(lines: seq<Line>) { exists line <- lines :: line.Header? }

  /** The lines after the first header. */
  function AfterHeader(lines: seq<Line>): seq<Line>
  {
    if lines == [] then [] else if lines[0].Header? then lines[1..] else AfterHeader(lines[1..])
  }

  lemma {:induction false} RunRefuses(s: Split, lines: seq<Line>)
    ensures SplitFrom(s, lines).None? <==> exists line <- lines :: Refused(line)
    decreases lines
  {
    if lines != [] {
      assert lines == [lines[0]] + lines[1..];
      assert SplitStep(s, lines[0]).None? <==> Refused(lines[0]);
      if !Refused(lines[0]) {
        RunRefuses(SplitStep(s, lines[0]).value, lines[1..]);
      }
    }
  }

  lemma FlushKeepsHeads(s: Split)
    ensures ModuleHeads(SplitFlush(s).mods) == ModuleHeads(s.mods)
  {
  }

  lemma {:induction false} RunHeads(s: Split, lines: seq<Line>)
    requires SplitFrom(s, lines).Some?
    ensures ModuleHeads(SplitFrom(s, lines).value.mods) == ModuleHeads(s.mods) + HeaderHeads(lines)
    decreases lines
  {
    if lines != [] {
      var next := SplitStep(s, lines[0]).value;
      RunHeads(next, lines[1..]);
      FlushKeepsHeads(s);
      assert ModuleHeads(next.mods) == ModuleHeads(s.mods) + HeadsOf(lines[0]);
    }
  }

  lemma AddSourceSourced(mods: seq<Module>, file: OpenFile, text: string)
    requires mods != []
    ensures Sourced(AddSource(mods, file, text))
  {
    var r := AddSource(mods, file, text);
    assert r[|r| - 1] in r;
  }

  lemma NewModuleSourced(mods: seq<Module>, name: string, groups: seq<seq<string>>)
    ensures Sourced(mods + [NewModule(name, groups)]) <==> Sourced(mods)
  {
    var m := NewModule(name, groups);
    assert forall x :: x in mods + [m] <==> x in mods || x == m;
  }

  /** A file once opened under a module ends as a source of some module. */
  lemma {:induction false} RunSourced(s: Split, lines: seq<Line>)
    requires s.mods != [] && SplitFrom(s, lines).Some?
    ensures Sourced(SplitFlush(SplitFrom(s, lines).value).mods) <==>
      Sourced(s.mods) || s.file.Some? || exists line <- lines :: Opens(line)
    decreases lines
  {
    if s.file.Some? {
      AddSourceSourced(s.mods, s.file.value, s.text);
    }
    if lines != [] {
      assert lines == [lines[0]] + lines[1..];
      var next := SplitStep(s, lines[0]).value;
      if lines[0].Header? {
        NewModuleSourced(SplitFlush(s).mods, lines[0].name, lines[0].groups.value);
      }
      assert Sourced(next.mods) || next.file.Some? <==> Sourced(s.mods) || s.file.Some? || Opens(lines[0]);
      RunSourced(next, lines[1..]);
    }
  }

  lemma {:induction false} StartSourced(s: Split, lines: seq<Line>)
    requires s.mods == [] && SplitFrom(s, lines).Some?
    ensures Sourced(SplitFlush(SplitFrom(s, lines).value).mods) <==> exists line <- AfterHeader(lines) :: Opens(line)
    decreases lines
  {
    if lines != [] {
      var next := SplitStep(s, lines[0]).value;
      if lines[0].Header? {
        NewModuleSourced([], lines[0].name, lines[0].groups.value);
        RunSourced(next, lines[1..]);
      } else {
        StartSourced(next, lines[1..]);
      }
    }
  }

  /** The splitter accepts exactly the sources with no malformed header and no foreign file, with two
      modules or more, and with a file or code below some header; the modules are the headers, in order. */
  lemma SplitAccepts(lines: seq<Line>)
    ensures SplitModules(lines).Some? <==>
      && (forall line <- lines :: !Refused(line))
      && |HeaderHeads(lines)| >= 2
      && exists line <- AfterHeader(lines) :: Opens(line)
    ensures SplitModules(lines).Some? ==> ModuleHeads(SplitModules(lines).value) == HeaderHeads(lines)
  {
    RunRefuses(SPLIT_START, lines);
    if SplitFrom(SPLIT_START, lines).Some? {
      RunHeads(SPLIT_START, lines);
      FlushKeepsHeads(SplitFrom(SPLIT_START, lines).value);
      StartSourced(SPLIT_START, lines);
    }
  }

  // ---------------------------------------------------------------- what each file holds

  predicate Marks(line: Line) { !line.Remark? && !line.Code? }

  /** The lines down to the next marker, each ended. */
  function TextBelow(lines: seq<Line>): string
  {
    if lines == [] || Marks(lines[0]) then "" else lines[0].text + "\n" + TextBelow(lines[1..])
  }

  /** A module's name with the name and text of one of its files. */
  datatype Stored = Stored(module_: string, name: string, text: string)

  function FilesOf(m: Module, isJava: bool): seq<File> { if isJava then m.javaFiles else m.files }

  function StoredOf(m: Module, isJava: bool): (r: seq<Stored>)
    ensures |r| == |FilesOf(m, isJava)|
    ensures forall i :: 0 <= i < |r| ==> r[i] == Stored(m.name, FilesOf(m, isJava)[i].0, FilesOf(m, isJava)[i].1)
  {
    var files := FilesOf(m, isJava);
    seq(|files|, i requires 0 <= i < |files| => Stored(m.name, files[i].0, files[i].1))
  }

  /** The modules' files of one language, in order. */
  function StoredIn(mods: seq<Module>, isJava: bool): seq<Stored>
  {
    if mods == [] then [] else StoredIn(mods[..|mods| - 1], isJava) + StoredOf(mods[|mods| - 1], isJava)
  }

  /** The files the lines below a header of that name should make: one for each marker, holding the text down
      to the next, and one of the module's own name where code comes first. The first file of all has what
      was left over above the headers in front. */
  function FilesBelow(lines: seq<Line>, name: string, open: bool, leak: string, isJava: bool): seq<Stored>
  {
    if lines == [] then []
    else
      var line, rest := lines[0], lines[1..];
      if line.Header? then FilesBelow(rest, line.name, false, leak, isJava)
      else if line.JavaFile? then
        (if isJava then [Stored(name, line.leaf, leak + TextBelow(rest))] else []) +
        FilesBelow(rest, name, true, "", isJava)
      else if line.KotlinFile? then
        (if isJava then [] else [Stored(name, line.stem, leak + TextBelow(rest))]) +
        FilesBelow(rest, name, true, "", isJava)
      else if line.Code? && !open then
        (if isJava then [] else [Stored(name, name, leak + TextBelow(lines))]) +
        FilesBelow(rest, name, true, "", isJava)
      else FilesBelow(rest, name, open, leak, isJava)
  }

  function FirstHeader(lines: seq<Line>): string
  {
    if lines == [] then "" else if lines[0].Header? then lines[0].name else FirstHeader(lines[1..])
  }

  /** The file being read, with what is still to come. */
  function Unfinished(s: Split, lines: seq<Line>, isJava: bool): seq<Stored>
    requires s.mods != []
  {
    if s.file.Some? && s.file.value.isJava == isJava
    then [Stored(Last(s.mods).name, s.file.value.name, s.text + TextBelow(lines))]
    else []
  }

  /** What the splitter will have stored in the end, seen from `s`. */
  function Final(s: Split, lines: seq<Line>, isJava: bool): seq<Stored>
    requires s.mods != []
  {
    StoredIn(s.mods, isJava) + Unfinished(s, lines, isJava) +
    FilesBelow(lines, Last(s.mods).name, s.file.Some?, if s.file.None? then s.text else "", isJava)
  }

  lemma StoredAdd(mods: seq<Module>, file: OpenFile, text: string, isJava: bool)
    requires mods != []
    ensures StoredIn(AddSource(mods, file, text), isJava) ==
      StoredIn(mods, isJava) + if file.isJava == isJava then [Stored(Last(mods).name, file.name, text)] else []
  {
    var r := AddSource(mods, file, text);
    assert r[..|r| - 1] == mods[..|mods| - 1];
    assert StoredOf(r[|r| - 1], isJava) ==
      StoredOf(Last(mods), isJava) +
      if file.isJava == isJava then [Stored(Last(mods).name, file.name, text)] else [];
  }

  lemma StoredNew(mods: seq<Module>, name: string, groups: seq<seq<string>>, isJava: bool)
    ensures StoredIn(mods + [NewModule(name, groups)], isJava) == StoredIn(mods, isJava)
  {
    assert (mods + [NewModule(name, groups)])[..|mods|] == mods;
    assert StoredOf(NewModule(name, groups), isJava) == [];
  }

  /** Closing the file at a marker changes nothing of the outcome. */
  lemma FlushStores(s: Split, isJava: bool)
    requires s.mods != []
    ensures var s' := SplitFlush(s);
      && s'.mods != [] && Last(s'.mods).name == Last(s.mods).name
      && StoredIn(s'.mods, isJava) == StoredIn(s.mods, isJava) + Unfinished(s, [], isJava)
      && s'.text == if s.file.None? then s.text else ""
  {
    assert s.text + "" == s.text;
    if s.file.Some? {
      StoredAdd(s.mods, s.file.value, s.text, isJava);
    }
  }

  lemma HeaderStores(s: Split, line: Line, rest: seq<Line>, isJava: bool)
    requires s.mods != [] && line.Header? && line.groups.Some?
    ensures var next := SplitStep(s, line).value;
      next.mods != [] && Final(next, rest, isJava) == Final(s, [line] + rest, isJava)
  {
    FlushStores(s, isJava);
    assert ([line] + rest)[1..] == rest;
    StoredNew(SplitFlush(s).mods, line.name, line.groups.value, isJava);
  }

  lemma FileStores(s: Split, line: Line, rest: seq<Line>, isJava: bool)
    requires s.mods != [] && (line.JavaFile? || line.KotlinFile?)
    ensures var next := SplitStep(s, line).value;
      next.mods != [] && Final(next, rest, isJava) == Final(s, [line] + rest, isJava)
  {
    FlushStores(s, isJava);
    assert TextBelow([line] + rest) == "";
    OpenedStores(s, SplitStep(s, line).value, line, rest, isJava);
  }

  lemma OpenedStores(s: Split, next: Split, line: Line, rest: seq<Line>, isJava: bool)
    requires s.mods != [] && next.mods != [] && Last(next.mods).name == Last(s.mods).name
    requires line.JavaFile? || line.KotlinFile?
    requires next.file == Some(OpenFile(if line.JavaFile? then line.leaf else line.stem, line.JavaFile?))
    requires next.text == if s.file.None? then s.text else ""
    requires StoredIn(next.mods, isJava) == StoredIn(s.mods, isJava) + Unfinished(s, [line] + rest, isJava)
    ensures Final(next, rest, isJava) == Final(s, [line] + rest, isJava)
  {
    MarkerBelow(line, rest, Last(s.mods).name, s.file.Some?, if s.file.None? then s.text else "", isJava);
  }

  lemma MarkerBelow(line: Line, rest: seq<Line>, name: string, open: bool, leak: string, isJava: bool)
    requires line.JavaFile? || line.KotlinFile?
    ensures FilesBelow([line] + rest, name, open, leak, isJava) ==
      (if line.JavaFile? == isJava
       then [Stored(name, if line.JavaFile? then line.leaf else line.stem, leak + TextBelow(rest))] else []) +
      FilesBelow(rest, name, true, "", isJava)
  {
    assert ([line] + rest)[1..] == rest;
  }

  lemma TextStores(s: Split, line: Line, rest: seq<Line>, isJava: bool)
    requires s.mods != [] && !Marks(line)
    ensures SplitStep(s, line).value.mods != []
    ensures Final(SplitStep(s, line).value, rest, isJava) == Final(s, [line] + rest, isJava)
  {
    assert ([line] + rest)[1..] == rest;
    assert s.text + (line.text + "\n" + TextBelow(rest)) == s.text + line.text + "\n" + TextBelow(rest);
  }

  lemma {:induction false} RunStores(s: Split, lines: seq<Line>, isJava: bool)
    requires s.mods != [] && SplitFrom(s, lines).Some?
    ensures StoredIn(SplitFlush(SplitFrom(s, lines).value).mods, isJava) == Final(s, lines, isJava)
    decreases lines
  {
    if lines == [] {
      FlushStores(s, isJava);
    } else {
      assert lines == [lines[0]] + lines[1..];
      if lines[0].Header? {
        HeaderStores(s, lines[0], lines[1..], isJava);
      } else if Marks(lines[0]) {
        FileStores(s, lines[0], lines[1..], isJava);
      } else {
        TextStores(s, lines[0], lines[1..], isJava);
      }
      RunStores(SplitStep(s, lines[0]).value, lines[1..], isJava);
    }
  }

  lemma FirstModuleStores(next: Split, rest: seq<Line>, name: string, groups: seq<seq<string>>, isJava: bool)
    requires next.mods == [] + [NewModule(name, groups)] && next.file.None? && SplitFrom(next, rest).Some?
    ensures StoredIn(SplitFlush(SplitFrom(next, rest).value).mods, isJava) ==
      FilesBelow(rest, name, false, next.text, isJava)
  {
    StoredNew([], name, groups, isJava);
    RunStores(next, rest, isJava);
  }

  lemma {:induction false} StartStores(s: Split, lines: seq<Line>, isJava: bool)
    requires s.mods == [] && SplitFrom(s, lines).Some? && HasHeader(lines)
    ensures StoredIn(SplitFlush(SplitFrom(s, lines).value).mods, isJava) ==
      FilesBelow(
        AfterHeader(lines), FirstHeader(lines), false, s.text + Leak(BeforeHeader(lines), s.file.Some?), isJava)
    decreases lines
  {
    assert lines == [lines[0]] + lines[1..];
    assert forall line <- lines :: line == lines[0] || line in lines[1..];
    if lines[0].Header? {
      assert s.text + "" == s.text;
      FirstModuleStores(SplitStep(s, lines[0]).value, lines[1..], lines[0].name, lines[0].groups.value, isJava);
    } else {
      var next := SplitStep(s, lines[0]).value;
      assert BeforeHeader(lines)[0] == lines[0] && BeforeHeader(lines)[1..] == BeforeHeader(lines[1..]);
      LeakStep(s.text, lines[0], BeforeHeader(lines[1..]), s.file.Some?);
      PrefaceText(s, lines[0]);
      StartStores(next, lines[1..], isJava);
    }
  }

  /** Above the headers the splitter stores nothing and keeps the text under file markers. */
  lemma PrefaceText(s: Split, line: Line)
    requires s.mods == [] && !line.Header? && SplitStep(s, line).Some?
    ensures var next := SplitStep(s, line).value;
      && next.mods == [] && next.text == s.text + (if s.file.Some? then TextOf(line) else "")
      && (next.file.Some? <==> s.file.Some? || line.JavaFile? || line.KotlinFile?)
  {
    assert s.text + "" == s.text;
    if line.Remark? || line.Code? {
      assert s.text + (line.text + "\n") == s.text + line.text + "\n";
    }
  }

  /** Every marker below a header becomes a file of that header's module, Kotlin or Java, with the text down to
      the next marker; so does code with no marker above it; and there are no others. */
  lemma FilesKept(lines: seq<Line>, isJava: bool)
    requires SplitModules(lines).Some?
    ensures StoredIn(SplitModules(lines).value, isJava) ==
      FilesBelow(AfterHeader(lines), FirstHeader(lines), false, Leak(BeforeHeader(lines), false), isJava)
  {
    SplitAccepts(lines);
    HeadsNeedHeader(lines);
    StartStores(SPLIT_START, lines, isJava);
    assert "" + Leak(BeforeHeader(lines), false) == Leak(BeforeHeader(lines), false);
  }

  /** The blocks the lines should make for the collector: one for each Kotlin marker, and one of the module's
      name where code comes first below a header. Below any other marker code is left out. */
  function BlocksBelow(lines: seq<Line>, module_: Option<string>, settled: bool): seq<Block>
  {
    if lines == [] then []
    else
      var line, rest := lines[0], lines[1..];
      if line.Header? then BlocksBelow(rest, Some(line.name), false)
      else if line.KotlinFile? then [Block(module_, line.stem, TextBelow(rest))] + BlocksBelow(rest, module_, true)
      else if line.Code? && !settled && module_.Some? then
        [Block(module_, module_.value, TextBelow(lines))] + BlocksBelow(rest, module_, true)
      else BlocksBelow(rest, module_, settled || line.JavaFile? || line.OtherFile?)
  }

  function Coming(c: Collect, lines: seq<Line>): seq<Block>
  {
    (if c.file.Some? then [Block(c.module_, c.file.value, c.body + TextBelow(lines))] else []) +
    BlocksBelow(lines, c.module_, c.file.Some? || c.ignoring)
  }

  lemma CollectMarker(c: Collect, line: Line, rest: seq<Line>)
    requires (c.file.None? ==> c.body == "") && Marks(line)
    ensures var c' := CollectStep(c, line); c'.blocks + Coming(c', rest) == c.blocks + Coming(c, [line] + rest)
  {
    assert ([line] + rest)[1..] == rest && c.body + "" == c.body;
    assert "" + TextBelow(rest) == TextBelow(rest);
  }

  lemma CollectText(c: Collect, line: Line, rest: seq<Line>)
    requires (c.file.None? ==> c.body == "") && !Marks(line)
    ensures var c' := CollectStep(c, line); c'.blocks + Coming(c', rest) == c.blocks + Coming(c, [line] + rest)
  {
    assert ([line] + rest)[1..] == rest;
    var text := line.text + "\n" + TextBelow(rest);
    assert TextBelow([line] + rest) == text;
    assert c.body + line.text + "\n" + TextBelow(rest) == c.body + text;
    assert "" + text == text;
  }

  lemma {:induction false} RunCollects(c: Collect, lines: seq<Line>)
    requires c.file.None? ==> c.body == ""
    ensures CollectFlush(CollectFrom(c, lines)).blocks == c.blocks + Coming(c, lines)
    decreases lines
  {
    if lines == [] {
      assert c.body + "" == c.body;
    } else {
      assert lines == [lines[0]] + lines[1..];
      if Marks(lines[0]) {
        CollectMarker(c, lines[0], lines[1..]);
      } else {
        CollectText(c, lines[0], lines[1..]);
      }
      RunCollects(CollectStep(c, lines[0]), lines[1..]);
    }
  }

  /** What the collector returns on any source, accepted by the splitter or not. */
  lemma BlocksKept(lines: seq<Line>)
    ensures KotlinBlocks(lines) == BlocksBelow(lines, None, false)
  {
    RunCollects(COLLECT_START, lines);
  }

  // ---------------------------------------------------------------- the two automata side by side

  function BlocksOf(m: Module): (r: seq<Block>)
    ensures |r| == |m.files|
    ensures forall i :: 0 <= i < |r| ==> r[i] == Block(Some(m.name), m.files[i].0, m.files[i].1)
  {
    seq(|m.files|, i requires 0 <= i < |m.files| => Block(Some(m.name), m.files[i].0, m.files[i].1))
  }

  /** Each module's Kotlin files, in order. */
  function Flatten(mods: seq<Module>): seq<Block>
  {
    if mods == [] then [] else Flatten(mods[..|mods| - 1]) + BlocksOf(mods[|mods| - 1])
  }

  lemma FlattenAdd(mods: seq<Module>, file: OpenFile, text: string)
    requires mods != []
    ensures Flatten(AddSource(mods, file, text)) ==
      Flatten(mods) + if file.isJava then [] else [Block(Some(Last(mods).name), file.name, text)]
  {
    var r := AddSource(mods, file, text);
    assert r[..|r| - 1] == mods[..|mods| - 1];
    assert BlocksOf(r[|r| - 1]) ==
      BlocksOf(Last(mods)) + if file.isJava then [] else [Block(Some(Last(mods).name), file.name, text)];
  }

  lemma FlattenNew(mods: seq<Module>, name: string, groups: seq<seq<string>>)
    ensures Flatten(mods + [NewModule(name, groups)]) == Flatten(mods)
  {
    assert (mods + [NewModule(name, groups)])[..|mods|] == mods;
    assert BlocksOf(NewModule(name, groups)) == [];
  }

  /** The blocks with `leak` in front of the first one's text. */
  function Prefixed(blocks: seq<Block>, leak: string): seq<Block>
  {
    if blocks == [] then [] else [blocks[0].(source := leak + blocks[0].source)] + blocks[1..]
  }

  function Carried(blocks: seq<Block>, leak: string): string { if blocks == [] then leak else "" }

  lemma PrefixedPush(blocks: seq<Block>, b: Block, leak: string)
    ensures Prefixed(blocks + [b], leak) ==
      Prefixed(blocks, leak) + [b.(source := Carried(blocks, leak) + b.source)]
  {
    assert "" + b.source == b.source;
  }

  /** The two states below a header: the same module, the same blocks but for text carried over from
      before the header, the same Kotlin file open. */
  ghost predicate Alike(s: Split, c: Collect, leak: string)
  {
    && s.mods != [] && c.module_ == Some(Last(s.mods).name)
    && Flatten(s.mods) == Prefixed(c.blocks, leak)
    && (s.file.None? ==> c.file.None? && !c.ignoring && c.body == "" && s.text == Carried(c.blocks, leak))
    && (s.file.Some? && s.file.value.isJava ==>
      c.file.None? && c.ignoring && c.body == "" && (c.blocks == [] ==> leak == ""))
    && (s.file.Some? && !s.file.value.isJava ==>
      c.file == Some(s.file.value.name) && s.text == Carried(c.blocks, leak) + c.body)
  }

  /** Before any file is opened, a Java marker takes the carried text away. */
  function After(s: Split, c: Collect, line: Line, leak: string): string
  {
    if s.file.None? && c.blocks == [] && line.JavaFile? then "" else leak
  }

  lemma FlushAlike(s: Split, c: Collect, leak: string)
    requires Alike(s, c, leak)
    ensures var (s', c') := (SplitFlush(s), CollectFlush(c));
      && s'.mods != [] && Last(s'.mods).name == Last(s.mods).name
      && Flatten(s'.mods) == Prefixed(c'.blocks, leak)
      && s'.text == Carried(c'.blocks, leak)
      && (s.file.Some? && c'.blocks == [] ==> leak == "")
  {
    if s.file.Some? {
      FlattenAdd(s.mods, s.file.value, s.text);
      if !s.file.value.isJava {
        PrefixedPush(c.blocks, Block(c.module_, c.file.value, c.body), leak);
      }
    }
  }

  lemma MarkerAlike(s: Split, c: Collect, line: Line, leak: string)
    requires Alike(s, c, leak) && SplitStep(s, line).Some? && (line.Header? || line.KotlinFile? || line.JavaFile?)
    ensures Alike(SplitStep(s, line).value, CollectStep(c, line), After(s, c, line, leak))
  {
    FlushAlike(s, c, leak);
    if line.Header? {
      FlattenNew(SplitFlush(s).mods, line.name, line.groups.value);
    } else {
      assert Carried(CollectFlush(c).blocks, leak) + "" == Carried(CollectFlush(c).blocks, leak);
    }
  }

  lemma TextAlike(s: Split, c: Collect, line: Line, leak: string)
    requires Alike(s, c, leak) && (line.Remark? || line.Code?)
    ensures Alike(SplitStep(s, line).value, CollectStep(c, line), leak)
  {
    var carried := Carried(c.blocks, leak);
    assert carried + (c.body + line.text + "\n") == carried + c.body + line.text + "\n";
    assert carried + c.body + line.text + "\n" == (carried + c.body) + line.text + "\n";
    assert c.body == "" ==> carried + c.body == carried;
  }

  lemma StepAlike(s: Split, c: Collect, line: Line, leak: string)
    requires Alike(s, c, leak) && SplitStep(s, line).Some?
    ensures Alike(SplitStep(s, line).value, CollectStep(c, line), After(s, c, line, leak))
  {
    if line.Remark? || line.Code? {
      TextAlike(s, c, line, leak);
    } else {
      MarkerAlike(s, c, line, leak);
    }
  }

  /** What of the carried text reaches a Kotlin file: all of it, unless a Java file is opened first. */
  function Reaching(lines: seq<Line>, leak: string): string
  {
    if lines == [] || lines[0].JavaFile? || lines[0].OtherFile? then ""
    else if Opens(lines[0]) then leak
    else Reaching(lines[1..], leak)
  }

  /** The first file below the headers is a Kotlin file. */
  predicate KotlinFirst(lines: seq<Line>)
  {
    lines != [] && !lines[0].JavaFile? && !lines[0].OtherFile? && (Opens(lines[0]) || KotlinFirst(lines[1..]))
  }

  lemma {:induction false} ReachingWhenKotlin(lines: seq<Line>, leak: string)
    ensures Reaching(lines, leak) == if KotlinFirst(lines) then leak else ""
  {
    if lines != [] {
      ReachingWhenKotlin(lines[1..], leak);
    }
  }

  /** What the first block will have in front: before any file is opened, that is not settled yet. */
  function Eventual(s: Split, c: Collect, lines: seq<Line>, leak: string): string
  {
    if s.file.None? && c.blocks == [] then Reaching(lines, leak) else leak
  }

  lemma EventualStep(s: Split, c: Collect, lines: seq<Line>, leak: string)
    requires Alike(s, c, leak) && lines != [] && SplitStep(s, lines[0]).Some?
    ensures Eventual(s, c, lines, leak) ==
      Eventual(SplitStep(s, lines[0]).value, CollectStep(c, lines[0]), lines[1..], After(s, c, lines[0], leak))
  {
    ReachingWhenKotlin(lines[1..], leak);
  }

  ghost predicate Agreed(s: Split, c: Collect, leak: string)
  {
    Flatten(SplitFlush(s).mods) == Prefixed(CollectFlush(c).blocks, leak)
  }

  lemma EndAgreed(s: Split, c: Collect, leak: string)
    requires Alike(s, c, leak)
    ensures Agreed(s, c, Eventual(s, c, [], leak))
  {
    FlushAlike(s, c, leak);
  }

  lemma {:induction false} RunAlike(s: Split, c: Collect, lines: seq<Line>, leak: string)
    requires Alike(s, c, leak) && SplitFrom(s, lines).Some?
    ensures Agreed(SplitFrom(s, lines).value, CollectFrom(c, lines), Eventual(s, c, lines, leak))
    decreases lines
  {
    if lines == [] {
      EndAgreed(s, c, leak);
    } else {
      StepAlike(s, c, lines[0], leak);
      EventualStep(s, c, lines, leak);
      RunAlike(SplitStep(s, lines[0]).value, CollectStep(c, lines[0]), lines[1..], After(s, c, lines[0], leak));
    }
  }

  // ---------------------------------------------------------------- before the first header

  function BeforeHeader(lines: seq<Line>): seq<Line>
  {
    if lines == [] || lines[0].Header? then [] else [lines[0]] + BeforeHeader(lines[1..])
  }

  function TextOf(line: Line): string { if line.Remark? || line.Code? then line.text + "\n" else "" }

  /** The text under file markers that precede the first header. */
  function Leak(before: seq<Line>, open: bool): string
  {
    if before == [] then ""
    else
      (if open then TextOf(before[0]) else "") +
      Leak(before[1..], open || before[0].JavaFile? || before[0].KotlinFile?)
  }

  ghost predicate Idle(s: Split, c: Collect)
  {
    s.mods == [] && c.blocks == [] && c.module_.None? && c.file.None? && c.body == ""
  }

  lemma HeaderStarts(s: Split, c: Collect, line: Line)
    requires Idle(s, c) && line.Header? && line.groups.Some?
    ensures var (s', c') := (SplitStep(s, line).value, CollectStep(c, line));
      Alike(s', c', s.text) && s'.file.None? && c'.blocks == []
  {
    FlattenNew([], line.name, line.groups.value);
    assert [] + [NewModule(line.name, line.groups.value)] == [NewModule(line.name, line.groups.value)];
  }

  /** A line before the first header: neither automaton stores a block, and the splitter keeps its text. */
  lemma PrefaceStep(s: Split, c: Collect, line: Line)
    requires Idle(s, c) && !line.Header? && !line.KotlinFile? && SplitStep(s, line).Some?
    ensures Idle(SplitStep(s, line).value, CollectStep(c, line))
  {
    PrefaceText(s, line);
  }

  lemma LeakStep(text: string, line: Line, before: seq<Line>, open: bool)
    ensures text + Leak([line] + before, open) ==
      (text + if open then TextOf(line) else "") + Leak(before, open || line.JavaFile? || line.KotlinFile?)
  {
    assert ([line] + before)[1..] == before;
  }

  /** Without a Kotlin file in front, the collector is idle and the splitter gathers the leak. */
  lemma {:induction false} PrefaceAlike(s: Split, c: Collect, lines: seq<Line>)
    requires Idle(s, c) && SplitFrom(s, lines).Some? && HasHeader(lines)
    requires forall line <- BeforeHeader(lines) :: !line.KotlinFile?
    ensures Agreed(
      SplitFrom(s, lines).value, CollectFrom(c, lines),
      Reaching(AfterHeader(lines), s.text + Leak(BeforeHeader(lines), s.file.Some?)))
    decreases lines
  {
    assert forall line <- lines :: line == lines[0] || line in lines[1..];
    if lines[0].Header? {
      HeaderStarts(s, c, lines[0]);
      assert s.text + "" == s.text;
      RunAlike(SplitStep(s, lines[0]).value, CollectStep(c, lines[0]), lines[1..], s.text);
    } else {
      assert BeforeHeader(lines)[0] == lines[0] && BeforeHeader(lines)[1..] == BeforeHeader(lines[1..]);
      PrefaceStep(s, c, lines[0]);
      PrefaceText(s, lines[0]);
      LeakStep(s.text, lines[0], BeforeHeader(lines[1..]), s.file.Some?);
      PrefaceAlike(SplitStep(s, lines[0]).value, CollectStep(c, lines[0]), lines[1..]);
    }
  }

  /** A Kotlin file in front becomes a block of no module. */
  lemma {:induction false} FirstBlockStays(c: Collect, lines: seq<Line>)
    requires c.blocks != [] || c.file.Some?
    requires c.blocks != [] ==> c.blocks[0].module_.None?
    requires c.blocks == [] ==> c.module_.None?
    ensures var blocks := CollectFlush(CollectFrom(c, lines)).blocks; blocks != [] && blocks[0].module_.None?
    decreases lines
  {
    if lines != [] {
      FirstBlockStays(CollectStep(c, lines[0]), lines[1..]);
    }
  }

  lemma {:induction false} KotlinInFront(c: Collect, lines: seq<Line>)
    requires c.blocks == [] && c.module_.None? && c.file.None?
    requires exists line <- BeforeHeader(lines) :: line.KotlinFile?
    ensures var blocks := CollectFlush(CollectFrom(c, lines)).blocks; blocks != [] && blocks[0].module_.None?
    decreases lines
  {
    if lines[0].KotlinFile? {
      FirstBlockStays(CollectStep(c, lines[0]), lines[1..]);
    } else {
      KotlinInFront(CollectStep(c, lines[0]), lines[1..]);
    }
  }

  lemma {:induction false} FlattenInModules(mods: seq<Module>)
    ensures forall b <- Flatten(mods) :: b.module_.Some?
  {
    if mods != [] {
      FlattenInModules(mods[..|mods| - 1]);
    }
  }

  // ---------------------------------------------------------------- agreement

  /** No Kotlin file stands before the first header, and no text left over from there runs into one below. */
  predicate Clean(lines: seq<Line>)
  {
    && (forall line <- BeforeHeader(lines) :: !line.KotlinFile?)
    && (Leak(BeforeHeader(lines), false) == "" || !KotlinFirst(AfterHeader(lines)))
  }

  /** A Kotlin file that is opened below a header ends as a block. */
  lemma {:induction false} KotlinFirstBlock(c: Collect, lines: seq<Line>)
    requires c.blocks != [] || c.file.Some? || (c.module_.Some? && !c.ignoring && KotlinFirst(lines))
    ensures CollectFlush(CollectFrom(c, lines)).blocks != []
    decreases lines
  {
    if lines != [] {
      KotlinFirstBlock(CollectStep(c, lines[0]), lines[1..]);
    }
  }

  lemma {:induction false} PrefaceBlock(c: Collect, lines: seq<Line>)
    requires HasHeader(lines) && KotlinFirst(AfterHeader(lines))
    ensures CollectFlush(CollectFrom(c, lines)).blocks != []
    decreases lines
  {
    assert forall line <- lines :: line == lines[0] || line in lines[1..];
    if lines[0].Header? {
      KotlinFirstBlock(CollectStep(c, lines[0]), lines[1..]);
    } else {
      PrefaceBlock(CollectStep(c, lines[0]), lines[1..]);
    }
  }

  lemma {:induction false} HeadsNeedHeader(lines: seq<Line>)
    ensures HeaderHeads(lines) != [] ==> HasHeader(lines)
  {
    if lines != [] {
      HeadsNeedHeader(lines[1..]);
      assert lines[0] in lines && forall line <- lines[1..] :: line in lines;
    }
  }

  /** On a source the splitter accepts, the collector returns the modules' Kotlin files, with their
      modules, stems and texts, in order, if and only if the source is clean. */
  lemma AutomataAgree(lines: seq<Line>)
    requires SplitModules(lines).Some?
    ensures KotlinBlocks(lines) == Flatten(SplitModules(lines).value) <==> Clean(lines)
  {
    SplitAccepts(lines);
    HeadsNeedHeader(lines);
    var mods, blocks := SplitModules(lines).value, KotlinBlocks(lines);
    if exists line <- BeforeHeader(lines) :: line.KotlinFile? {
      KotlinInFront(COLLECT_START, lines);
      FlattenInModules(mods);
      assert blocks[0] !in Flatten(mods);
    } else {
      var leak := Leak(BeforeHeader(lines), false);
      PrefaceAlike(SPLIT_START, COLLECT_START, lines);
      assert "" + leak == leak;
      ReachingWhenKotlin(AfterHeader(lines), leak);
      if KotlinFirst(AfterHeader(lines)) {
        PrefaceBlock(COLLECT_START, lines);
        assert blocks != [];
        assert |leak + blocks[0].source| == |leak| + |blocks[0].source|;
        assert leak == "" ==> leak + blocks[0].source == blocks[0].source;
      } else if blocks != [] {
        assert "" + blocks[0].source == blocks[0].source;
      }
    }
  }

  /** A source whose first marker is a module header is clean. */
  lemma {:induction false} HeaderFirstAgrees(lines: seq<Line>)
    requires SplitModules(lines).Some?
    requires forall line <- BeforeHeader(lines) :: line.Remark? || line.Code?
    ensures KotlinBlocks(lines) == Flatten(SplitModules(lines).value)
  {
    NoLeak(BeforeHeader(lines));
    AutomataAgree(lines);
  }

  lemma {:induction false} NoLeak(before: seq<Line>)
    requires forall line <- before :: line.Remark? || line.Code?
    ensures Leak(before, false) == ""
  {
    if before != [] {
      assert before[0] in before && forall line <- before[1..] :: line in before;
      NoLeak(before[1..]);
      assert Leak(before, false) == "" + Leak(before[1..], false);
    }
  }

  /** A Java file in front of the first header leaks its text into the first Kotlin file below it. */
  lemma TextLeaks(leaf: string, text: string, stem: string, a: string, b: string)
    ensures var lines := [JavaFile(leaf), Code(text), Header(a, Some([])), KotlinFile(stem), Header(b, Some([]))];
      SplitModules(lines).Some? && KotlinBlocks(lines) != Flatten(SplitModules(lines).value)
  {
    var lines := [JavaFile(leaf), Code(text), Header(a, Some([])), KotlinFile(stem), Header(b, Some([]))];
    LeakingLines(lines);
    SplitAccepts(lines);
    AutomataAgree(lines);
  }

  lemma LeakingLines(lines: seq<Line>)
    requires |lines| == 5 && lines[0].JavaFile? && lines[1].Code? && lines[2].Header? && lines[3].KotlinFile? &&
      lines[4].Header?
    requires lines[2].groups.Some? && lines[4].groups.Some?
    ensures |HeaderHeads(lines)| == 2
    ensures exists line <- AfterHeader(lines) :: Opens(line)
    ensures !Clean(lines)
  {
    Tails(lines);
    assert HeaderHeads(lines[4..]) == HeadsOf(lines[4]) + [];
    assert |HeaderHeads(lines[3..])| == 1 && |HeaderHeads(lines[2..])| == 2 && |HeaderHeads(lines[1..])| == 2;
    assert AfterHeader(lines[2..]) == lines[3..] && AfterHeader(lines[1..]) == lines[3..];
    assert lines[3..][0] in lines[3..];
    assert BeforeHeader(lines[2..]) == [] && BeforeHeader(lines[1..]) == [lines[1]];
    var before := BeforeHeader(lines);
    assert before == [lines[0], lines[1]] && before[1..] == [lines[1]];
    assert |Leak(before[1..], true)| > 0 && Leak(before, false) == "" + Leak(before[1..], true);
    assert KotlinFirst(lines[3..]) && AfterHeader(lines) == lines[3..];
  }

  lemma Tails(lines: seq<Line>)
    requires |lines| == 5
    ensures lines[1..][0] == lines[1] && lines[1..][1..] == lines[2..]
    ensures lines[2..][0] == lines[2] && lines[2..][1..] == lines[3..]
    ensures lines[3..][0] == lines[3] && lines[3..][1..] == lines[4..]
    ensures lines[4..][0] == lines[4] && lines[4..][1..] == []
  {
  }
}
