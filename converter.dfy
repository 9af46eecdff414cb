/**
 * The ClearNLP constituency-to-dependency adapter: a `SubprocessConverter`
 * that builds a Java command line, hands a file of Penn Treebank trees to
 * the external converter and reads back the `.dep` file it writes, plus the
 * classifier that maps the process's exit code and standard error to the
 * adapter's errors.
 *
 * The external program is not modelled: a `Tool` stands for everything it
 * does, and the directory the Python module is installed in (`PWD`) is an
 * opaque string given to the constructor.
 */
module Converter {
  import opened Wrappers
  import opened PyStr
  import PosixPath
  import TextIO

  /** The seven jars of the default classpath, in order. */
  const DefaultJars: seq<string> := [
    "clearnlp-3.1.2.jar", "args4j-2.0.29.jar", "log4j-1.2.17.jar",
    "hppc-0.6.1.jar", "xz-1.5.jar", "clearnlp-dictionary-3.2.jar",
    "clearnlp-global-lexica-3.1.jar"
  ]
  const DefaultHeadRuleFile: string := "headrule_en_stanford.txt"
  const DefaultJavaCommand: string := "java"
  const DefaultClassName: string := "edu.emory.clir.clearnlp.bin.C2DConvert"
  /** Bundled resources live in this directory next to the module. */
  const ResourceDir: string := "ext"
  /** The fixed scratch file the batch form writes its trees to. */
  const ScratchFile: string := "tmp.parse"
  /** The converter writes its result next to its input, with this suffix. */
  const OutputSuffix: string := ".dep"
  const ClassPathSeparator: string := ":"
  /** Trees are separated by one blank line, on the way in and on the way out. */
  const Blank: string := "\n\n"

  // ---------------------------------------------------------------------
  // Configuration
  // ---------------------------------------------------------------------

  /**
   * `os.path.join(pwd, 'ext', name)`, that is `join(join(pwd, 'ext'), name)`: the path ends with `name`; an absolute
   * `name` is kept as it is; a relative one goes under `pwd/ext/` when `pwd`
   * has no trailing `/`.
   */
  function ResourcePath(pwd: string, name: string): (r: string)
    ensures |r| >= |name| && r[|r| - |name|..] == name
    ensures PosixPath.IsAbsolute(name) ==> r == name
    ensures !PosixPath.IsAbsolute(name) && pwd != [] && pwd[|pwd| - 1] != PosixPath.Sep ==>
      r == pwd + "/ext/" + name
  {
    var dir := PosixPath.Join(pwd, ResourceDir);
    assert !PosixPath.IsAbsolute(ResourceDir) && ResourceDir[|ResourceDir| - 1] != PosixPath.Sep;
    assert pwd != [] && pwd[|pwd| - 1] != PosixPath.Sep ==>
      pwd + "/ext/" + name == dir + [PosixPath.Sep] + name;
    PosixPath.Join(dir, name)
  }

  /** The classpath comprehension of the constructor: one resource path per jar name, in order. */
  function ClassPath(pwd: string, filenames: seq<string>): (r: seq<string>)
    ensures |r| == |filenames|
    ensures forall k :: 0 <= k < |r| ==> r[k] == ResourcePath(pwd, filenames[k])
  {
    seq(|filenames|, i requires 0 <= i < |filenames| => ResourcePath(pwd, filenames[i]))
  }

  /**
   * For an install directory with no trailing `/`, each classpath entry is
   * `pwd/ext/<jar>` for a relative jar name, and the jar name itself for an
   * absolute one; the list keeps the length and the order of the names.
   */
  lemma ClassPathEntries(pwd: string, filenames: seq<string>, i: int)
    requires pwd != [] && pwd[|pwd| - 1] != PosixPath.Sep
    requires 0 <= i < |filenames|
    ensures |ClassPath(pwd, filenames)| == |filenames|
    ensures !PosixPath.IsAbsolute(filenames[i]) ==> ClassPath(pwd, filenames)[i] == pwd + "/ext/" + filenames[i]
    ensures PosixPath.IsAbsolute(filenames[i]) ==> ClassPath(pwd, filenames)[i] == filenames[i]
  {
  }

  /** The default classpath holds the seven bundled jars, in order, each under the resource directory. */
  lemma DefaultClassPath(pwd: string)
    ensures |ClassPath(pwd, DefaultJars)| == 7
    ensures forall k :: 0 <= k < 7 ==>
      var entry := ClassPath(pwd, DefaultJars)[k];
      |entry| >= |DefaultJars[k]| && entry[|entry| - |DefaultJars[k]|..] == DefaultJars[k]
  {
  }

  // ---------------------------------------------------------------------
  // The external process, as the adapter sees it
  // ---------------------------------------------------------------------

  /**
   * The external converter run on a command line, given the text of its
   * input file: the raw contents found at the input path plus `.dep` once
   * the run is over, or `None` when no file exists there. A file found there
   * need not have been written by this run.
   */
  type Tool = (seq<string>, string) -> Option<string>

  /** Opening the `.dep` file for reading fails when it does not exist. */
  datatype IOError = FileNotFound(path: string)

  /** How the converter's main class reads the command line it is given. */
  datatype Invocation = Invocation(
    launcher: string, classPath: seq<string>, mainClass: string, headRules: string, input: string)

  /** A reading of the fixed command shape, independent of how it is built. */
  function ParseCommand(args: seq<string>): Option<Invocation> {
    if |args| == 9 && args[1] == "-ea" && args[2] == "-cp" && args[5] == "-h" && args[7] == "-i"
    then Some(Invocation(args[0], Split(args[3], ClassPathSeparator), args[4], args[6], args[8]))
    else None
  }

  /** `file_loc + '.dep'`: where the converter's output for `fileLoc` is read from. */
  function OutputPath(fileLoc: string): (r: string)
    ensures |r| == |fileLoc| + |OutputSuffix|
    ensures r[..|fileLoc|] == fileLoc && r[|fileLoc|..] == OutputSuffix
  {
    fileLoc + OutputSuffix
  }

  /** Distinct input files never share an output file, and the input path is a prefix. */
  lemma OutputPathInjective(a: string, b: string)
    ensures OutputPath(a)[..|a|] == a
    ensures OutputPath(a) == OutputPath(b) ==> a == b
  {
  }

  // ---------------------------------------------------------------------
  // Batch serialisation and splitting
  // ---------------------------------------------------------------------

  /** `[t.strip() for t in trees]`: the trees stripped one by one, in order. */
  function StripAll(trees: seq<string>): (r: seq<string>)
    ensures |r| == |trees|
    ensures forall k :: 0 <= k < |trees| ==> r[k] == Strip(trees[k])
  {
    if trees == [] then []
    else StripAll(trees[..|trees| - 1]) + [Strip(trees[|trees| - 1])]
  }

  /**
   * The text `convert_trees` writes to the scratch file: each tree stripped
   * and followed by a blank line, in order. It is the stripped trees joined
   * by the blank line, plus one trailing blank line.
   */
  function Serialise(trees: seq<string>): (r: string)
    ensures trees == [] ==> r == ""
    ensures trees != [] ==> r == Join(Blank, StripAll(trees)) + Blank
  {
    if trees == [] then ""
    else
      var init := trees[..|trees| - 1];
      var last := Strip(trees[|trees| - 1]);
      if init == [] then
        Serialise(init) + last + Blank
      else
        JoinSnoc(Blank, StripAll(init), last);
        Serialise(init) + last + Blank
  }

  /**
   * `text.strip().split('\n\n')`: the converter's output cut at blank lines.
   * There is at least one piece, no piece holds a blank line, every piece but
   * the last ends at the first blank line after it, and joining the pieces
   * with blank lines gives the stripped output back. It is one block per
   * tree under the conditions of `BatchCorrespondence`.
   */
  function SplitResults(text: string): (r: seq<string>)
    ensures |r| >= 1
    ensures forall k :: 0 <= k < |r| ==> !Contains(r[k], Blank)
    ensures forall k :: 0 <= k < |r| - 1 ==> Delimits(Blank, r[k])
    ensures Join(Blank, r) == Strip(text)
  {
    Split(Strip(text), Blank)
  }

  /** A block that survives the blank-line round trip: non-empty, stripped, no blank line inside. */
  predicate IsBlock(b: string) {
    b != [] && IsStripped(b) && !Contains(b, Blank)
  }

  /**
   * Whatever white space surrounds them, blocks joined by blank lines are
   * recovered exactly, and in order, by `SplitResults`.
   */
  lemma SplitResultsRecoversBlocks(w1: string, blocks: seq<string>, w2: string)
    requires AllSpace(w1) && AllSpace(w2)
    requires blocks != [] && forall k :: 0 <= k < |blocks| ==> IsBlock(blocks[k])
    ensures SplitResults(w1 + Join(Blank, blocks) + w2) == blocks
  {
    var joined := Join(Blank, blocks);
    JoinStripped(Blank, blocks);
    StripPadded(w1, joined, w2);
    BlankDelimitsBlocks(blocks);
    SplitJoin(Blank, blocks);
  }

  /** The blank line delimits every block. */
  lemma BlankDelimitsBlocks(blocks: seq<string>)
    requires forall k :: 0 <= k < |blocks| ==> IsBlock(blocks[k])
    ensures forall k :: 0 <= k < |blocks| ==> Delimits(Blank, blocks[k])
  {
    forall k | 0 <= k < |blocks| ensures Delimits(Blank, blocks[k]) {
      DelimitsStripped(Blank, blocks[k]);
    }
  }

  /**
   * Splitting the stripped serialisation gives back the stripped trees, one
   * per tree and in order, when every stripped tree is non-empty and has no
   * blank line inside.
   */
  lemma BatchRoundTrip(trees: seq<string>)
    requires trees != []
    requires forall k :: 0 <= k < |trees| ==> IsBlock(Strip(trees[k]))
    ensures SplitResults(Serialise(trees)) == StripAll(trees)
    ensures |SplitResults(Serialise(trees))| == |trees|
  {
    var blocks := StripAll(trees);
    BlankIsSpace();
    SplitResultsRecoversBlocks([], blocks, Blank);
    assert [] + Join(Blank, blocks) + Blank == Serialise(trees);
  }

  lemma BlankIsSpace()
    ensures AllSpace(Blank)
  {
  }

  /**
   * An empty batch writes an empty file, and when the converter answers
   * with nothing but white space the result is one empty string, not an
   * empty list.
   */
  lemma EmptyBatch(text: string)
    requires AllSpace(text)
    ensures Serialise([]) == ""
    ensures SplitResults(text) == [""]
  {
  }

  // ---------------------------------------------------------------------
  // Failure classification
  // ---------------------------------------------------------------------

  const PennWarning: string := "PennTreeReader: warning:"
  /** Oracle's JVM reports a class file too new for it this way. */
  const OracleVersionMarker: string := "Unsupported major.minor version"
  /** IBM's JVM reports the same condition this way. */
  const IbmVersionMarker: string := "JVMCFRE003 bad major version"

  const MalformedTreeMessage: string := "Tree(s) not in valid Penn Treebank format"
  const BadExitMessage: string := "Bad exit code from Stanford CoreNLP"
  const JavaRuntimeVersionMessage: string :=
    "Your Java runtime is too old (must be 1.8+ to use CoreNLP version 3.5.0 or later and 1.6+ to use CoreNLP version 1.3.1 or later)"

  /** What `_raise_on_bad_exit_or_output` does: return, or raise one of three errors. */
  datatype Outcome = Ok | MalformedTree | JavaRuntimeVersion | BadExit {
    /** Malformed trees and bad exits are both raised as `ValueError`. */
    predicate IsValueError() {
      MalformedTree? || BadExit?
    }

    /** The message the raised exception carries; each message belongs to one outcome only. */
    function Message(): (m: string)
      requires !Ok?
      ensures m == MalformedTreeMessage <==> MalformedTree?
      ensures m == JavaRuntimeVersionMessage <==> JavaRuntimeVersion?
      ensures m == BadExitMessage <==> BadExit?
    {
      match this
      case MalformedTree => MalformedTreeMessage
      case JavaRuntimeVersion => JavaRuntimeVersionMessage
      case BadExit => BadExitMessage
    }
  }

  /**
   * `_raise_on_bad_exit_or_output(return_code, stderr)`. The Penn Treebank
   * warning wins whatever the exit code; the version markers and the
   * generic error only apply to a non-zero exit code.
   */
  function Classify(returnCode: int, stderr: string): (r: Outcome)
    ensures r == MalformedTree <==> Contains(stderr, PennWarning)
    ensures r == Ok <==> returnCode == 0 && !Contains(stderr, PennWarning)
    ensures r == JavaRuntimeVersion <==>
      returnCode != 0 && !Contains(stderr, PennWarning) &&
      (Contains(stderr, OracleVersionMarker) || Contains(stderr, IbmVersionMarker))
    ensures r == BadExit <==>
      returnCode != 0 && !Contains(stderr, PennWarning) &&
      !Contains(stderr, OracleVersionMarker) && !Contains(stderr, IbmVersionMarker)
    ensures r.IsValueError() <==>
      Contains(stderr, PennWarning) ||
      (returnCode != 0 && !Contains(stderr, OracleVersionMarker) && !Contains(stderr, IbmVersionMarker))
  {
    if Contains(stderr, PennWarning) then MalformedTree
    else if returnCode != 0 then
      if Contains(stderr, OracleVersionMarker) then JavaRuntimeVersion
      else if Contains(stderr, IbmVersionMarker) then JavaRuntimeVersion
      else BadExit
    else Ok
  }

  /** One row of the classification policy: a stderr marker, whether it needs a bad exit, the result. */
  datatype Rule = Rule(marker: string, badExitOnly: bool, outcome: Outcome)

  /** The policy as an ordered table; the empty marker is in every stderr. */
  const FailureRules: seq<Rule> := [
    Rule(PennWarning, false, MalformedTree),
    Rule(OracleVersionMarker, true, JavaRuntimeVersion),
    Rule(IbmVersionMarker, true, JavaRuntimeVersion),
    Rule("", true, BadExit)
  ]

  /** The outcome of the first rule that applies, `Ok` when none does. */
  function FirstMatch(rules: seq<Rule>, returnCode: int, stderr: string): Outcome {
    if rules == [] then Ok
    else if Contains(stderr, rules[0].marker) && (!rules[0].badExitOnly || returnCode != 0) then rules[0].outcome
    else FirstMatch(rules[1..], returnCode, stderr)
  }

  /** The classifier is exactly the first-match reading of the rule table. */
  lemma ClassifyFollowsRules(returnCode: int, stderr: string)
    ensures Classify(returnCode, stderr) == FirstMatch(FailureRules, returnCode, stderr)
  {
    var code, err := returnCode, stderr;
    assert Contains(err, "");
    var r1 := FailureRules[1..];
    var r2 := r1[1..];
    var r3 := r2[1..];
    assert r3[1..] == [];
    assert FirstMatch(r3, code, err) == if code != 0 then BadExit else Ok;
    assert FirstMatch(r2, code, err) ==
      if Contains(err, IbmVersionMarker) && code != 0 then JavaRuntimeVersion else FirstMatch(r3, code, err);
    assert FirstMatch(r1, code, err) ==
      if Contains(err, OracleVersionMarker) && code != 0 then JavaRuntimeVersion else FirstMatch(r2, code, err);
  }

  // ---------------------------------------------------------------------
  // The converter object
  // ---------------------------------------------------------------------

  class SubprocessConverter {
    /** The directory the Python module is installed in (`PWD`). */
    var pwd: string
    var className: string
    var headRulePath: string
    var javaCommand: string
    var classPath: seq<string>

    /**
     * `SubprocessConverter(filenames=None, java_command='java',
     * head_rule_path=None, class_name=...)`: omitted jar names and head
     * rules default to the bundled resources under `pwd/ext`.
     */
    constructor (
      pwd: string,
      filenames: Option<seq<string>> := None,
      javaCommand: string := DefaultJavaCommand,
      headRulePath: Option<string> := None,
      className: string := DefaultClassName)
      ensures this.pwd == pwd
      ensures this.className == className && this.javaCommand == javaCommand
      ensures this.headRulePath == if headRulePath.Some? then headRulePath.value
                                   else ResourcePath(pwd, DefaultHeadRuleFile)
      ensures this.classPath == ClassPath(pwd, if filenames.Some? then filenames.value else DefaultJars)
    {
      var names := if filenames.Some? then filenames.value else DefaultJars;
      var rules := if headRulePath.Some? then headRulePath.value else ResourcePath(pwd, DefaultHeadRuleFile);
      this.pwd := pwd;
      this.className := className;
      this.headRulePath := rules;
      this.javaCommand := javaCommand;
      this.classPath := ClassPath(pwd, names);
    }

    /** `os.path.join(PWD, 'tmp.parse')`: the same file for every batch of this install. */
    function ScratchPath(): (r: string)
      reads this
      ensures |r| >= |ScratchFile| && r[|r| - |ScratchFile|..] == ScratchFile
      ensures pwd != [] && pwd[|pwd| - 1] != PosixPath.Sep ==> r == pwd + "/" + ScratchFile
    {
      PosixPath.Join(pwd, ScratchFile)
    }

    /**
     * The command list `convert_file` starts the Java process with: it has
     * the fixed shape and carries the launcher, the class name, the head
     * rules and the input where the converter reads them; the `-cp`
     * argument is the classpath joined by `:` (whether it splits back into
     * the entries: see `CommandRoundTrip`).
     */
    function Command(fileLoc: string): (r: seq<string>)
      reads this
      ensures |r| == 9 && r[3] == Join(ClassPathSeparator, classPath)
      ensures ParseCommand(r).Some?
      ensures ParseCommand(r).value.launcher == javaCommand
      ensures ParseCommand(r).value.mainClass == className
      ensures ParseCommand(r).value.headRules == headRulePath
      ensures ParseCommand(r).value.input == fileLoc
    {
      [javaCommand, "-ea", "-cp", Join(ClassPathSeparator, classPath), className,
       "-h", headRulePath, "-i", fileLoc]
    }

    /**
     * `convert_file(file_loc)`: run the converter on `fileLoc`, then read
     * `fileLoc + '.dep'` in text mode, whatever the exit code and standard
     * error were; opening that file fails if there is none.
     */
    function ConvertFile(fileLoc: string, inputText: string, tool: Tool): (r: Result<string, IOError>)
      reads this
      ensures r.Success? <==> tool(Command(fileLoc), inputText).Some?
      ensures r.Success? ==> r.value == TextIO.TranslateNewlines(tool(Command(fileLoc), inputText).value)
      ensures r.Success? ==> forall k :: 0 <= k < |r.value| ==> r.value[k] != '\r'
      ensures r.Failure? ==> r.error == FileNotFound(OutputPath(fileLoc))
    {
      match tool(Command(fileLoc), inputText)
      case Some(raw) => Success(TextIO.TranslateNewlines(raw))
      case None => Failure(FileNotFound(OutputPath(fileLoc)))
    }

    /**
     * `convert_trees(trees)`: write the stripped trees, each followed by a
     * blank line, to the scratch file, convert it, and cut the stripped
     * output at the blank lines.
     */
    method ConvertTrees(trees: seq<string>, tool: Tool) returns (r: Result<seq<string>, IOError>)
      ensures match ConvertFile(ScratchPath(), Serialise(trees), tool)
              case Success(text) => r == Success(SplitResults(text))
              case Failure(e) => r == Failure(e)
    {
      var buffer := "";
      for i := 0 to |trees|
        invariant buffer == Serialise(trees[..i])
      {
        assert trees[..i + 1][..i] == trees[..i];
        buffer := buffer + Strip(trees[i]) + Blank;
      }
      assert trees[..|trees|] == trees;
      var output := ConvertFile(ScratchPath(), buffer, tool);
      match output
      case Success(text) => r := Success(SplitResults(text));
      case Failure(e) => r := Failure(e);
    }
  }

  /**
   * The command names the launcher, the classpath, the main class, the head
   * rules and the input, in the places the converter reads them from; the
   * classpath argument splits back into the configured entries as long as
   * there is at least one and none contains `:`.
   */
  lemma CommandRoundTrip(c: SubprocessConverter, fileLoc: string)
    requires c.classPath != []
    requires forall k :: 0 <= k < |c.classPath| ==> !Contains(c.classPath[k], ClassPathSeparator)
    ensures ParseCommand(c.Command(fileLoc)) ==
      Some(Invocation(c.javaCommand, c.classPath, c.className, c.headRulePath, fileLoc))
  {
    forall k | 0 <= k < |c.classPath| ensures Delimits(ClassPathSeparator, c.classPath[k]) {
      DelimitsOneChar(ClassPathSeparator, c.classPath[k]);
    }
    SplitJoin(ClassPathSeparator, c.classPath);
  }

  /**
   * When the `.dep` file read after the run holds one well-formed block per
   * tree, separated by blank lines, the batch result holds exactly those
   * blocks: as many as there were trees, in the same order.
   */
  lemma BatchCorrespondence(c: SubprocessConverter, trees: seq<string>, tool: Tool, w1: string, blocks: seq<string>, w2: string)
    requires AllSpace(w1) && AllSpace(w2)
    requires |blocks| == |trees| > 0 && forall k :: 0 <= k < |blocks| ==> IsBlock(blocks[k])
    requires tool(c.Command(c.ScratchPath()), Serialise(trees)).Some?
    requires TextIO.TranslateNewlines(tool(c.Command(c.ScratchPath()), Serialise(trees)).value) ==
      w1 + Join(Blank, blocks) + w2
    ensures c.ConvertFile(c.ScratchPath(), Serialise(trees), tool).Success?
    ensures |SplitResults(c.ConvertFile(c.ScratchPath(), Serialise(trees), tool).value)| == |trees|
    ensures SplitResults(c.ConvertFile(c.ScratchPath(), Serialise(trees), tool).value) == blocks
  {
    SplitResultsRecoversBlocks(w1, blocks, w2);
  }

  /** `test_command_string`: the default launcher is `java`, and a given one is kept. */
  method CommandStringDefaults(pwd: string) returns (defaultLauncher: string, givenLauncher: string)
    ensures defaultLauncher == "java" && givenLauncher == "java8"
  {
    var converter := new SubprocessConverter(pwd);
    defaultLauncher := converter.javaCommand;
    converter := new SubprocessConverter(pwd, javaCommand := "java8");
    givenLauncher := converter.javaCommand;
  }
}
