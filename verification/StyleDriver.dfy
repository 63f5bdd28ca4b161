/** The driver of check-style-clang-format.py, for the passes modelled in `StyleFix`. */
module StyleDriver {
  import opened StyleFix

  datatype Pass = Whitespace | Tabs

  ghost predicate CleanFor(p: Pass, text: string) {
    match p
    case Whitespace => SpaceClean(text)
    case Tabs => TabClean(text)
  }

  ghost function FixedFor(p: Pass, text: string): string {
    match p
    case Whitespace => SpaceFixedText(text)
    case Tabs => TabFixedText(text)
  }

  /** What a pass accepts and what it makes of a file, as values; `kept` is a property it never breaks. */
  datatype Effect = Effect(clean: string -> bool, fixed: string -> string, kept: string -> bool)

  ghost predicate IsEffect(p: Pass, e: Effect) {
    && (forall t :: e.clean(t) == CleanFor(p, t))
    && (forall t :: e.fixed(t) == FixedFor(p, t))
  }

  ghost predicate Repairs(e: Effect) {
    forall t :: e.clean(e.fixed(t)) && (e.kept(t) ==> e.kept(e.fixed(t)))
  }

  ghost predicate All(files: seq<SourceFile>, p: string -> bool)
    reads files
  {
    forall i | 0 <= i < |files| :: p(files[i].text)
  }

  method CheckFile(f: SourceFile, p: Pass, fix: bool, verbose: bool, ghost e: Effect) returns (compliant: bool)
    requires IsEffect(p, e)
    modifies f
    ensures compliant <==> e.clean(old(f.text))
    ensures f.text == if fix && !compliant then e.fixed(old(f.text)) else old(f.text)
  {
    var errors;
    match p {
      case Whitespace => compliant, errors := f.CheckTrailingWhitespace(fix, verbose);
      case Tabs => compliant, errors := f.CheckTabs(fix, verbose);
    }
  }

  /** A file that is fixed is clean, and keeps what the pass never breaks. */
  method FixFile(f: SourceFile, p: Pass, verbose: bool, ghost e: Effect)
    requires IsEffect(p, e) && Repairs(e)
    modifies f
    ensures e.clean(f.text) && (e.kept(old(f.text)) ==> e.kept(f.text))
    ensures e.clean(old(f.text)) ==> f.text == old(f.text)
  {
    var _ := CheckFile(f, p, true, verbose, e);
  }

  /** One pass over a list of files in fix mode.  `others` are files of another pass. */
  method FixFiles(files: seq<SourceFile>, p: Pass, verbose: bool, ghost e: Effect, ghost others: seq<SourceFile>)
    requires IsEffect(p, e) && Repairs(e)
    modifies files
    ensures All(files, e.clean) && (old(All(others, e.kept)) ==> All(others, e.kept))
  {
    for i := 0 to |files|
      invariant forall k | 0 <= k < i :: e.clean(files[k].text)
      invariant old(All(others, e.kept)) ==> All(others, e.kept)
    {
      FixFile(files[i], p, verbose, e);
    }
  }

  /** And in check mode. */
  method CheckFiles(files: seq<SourceFile>, p: Pass, verbose: bool, ghost e: Effect) returns (successful: bool)
    requires IsEffect(p, e)
    modifies files
    ensures successful <==> old(All(files, e.clean))
    ensures SameTexts(files)
  {
    successful := true;
    for i := 0 to |files|
      invariant SameTexts(files)
      invariant successful <==> forall k | 0 <= k < i :: e.clean(files[k].text)
    {
      var compliant := CheckFile(files[i], p, false, verbose, e);
      successful := successful && compliant;
    }
  }

  /** `check_style_file`: run one pass over a list of files. */
  method CheckStyleFile(files: seq<SourceFile>, p: Pass, fix: bool, verbose: bool,
                        ghost e: Effect, ghost others: seq<SourceFile>)
    returns (successful: bool)
    requires IsEffect(p, e) && Repairs(e)
    modifies files
    ensures successful <==> fix || old(All(files, e.clean))
    ensures fix ==> All(files, e.clean) && (old(All(others, e.kept)) ==> All(others, e.kept))
    ensures !fix ==> SameTexts(files)
  {
    if fix {
      FixFiles(files, p, verbose, e, others);
      successful := true;
    } else {
      successful := CheckFiles(files, p, verbose, e);
    }
  }

  twostate predicate SameTexts(files: seq<SourceFile>)
    reads files
  {
    forall i | 0 <= i < |files| :: files[i].text == old(files[i].text)
  }

  ghost function WhitespaceEffect(): Effect {
    Effect(t => SpaceClean(t), t => SpaceFixedText(t), t => true)
  }

  ghost function TabsEffect(): Effect {
    Effect(t => TabClean(t), t => TabFixedText(t), t => SpaceClean(t))
  }

  lemma EffectsRepair()
    ensures IsEffect(Whitespace, WhitespaceEffect()) && Repairs(WhitespaceEffect())
    ensures IsEffect(Tabs, TabsEffect()) && Repairs(TabsEffect())
  {
    forall t ensures SpaceClean(SpaceFixedText(t)) { SpaceFixedFileIsClean(t); }
    forall t ensures TabClean(TabFixedText(t)) && (SpaceClean(t) ==> SpaceClean(TabFixedText(t))) {
      TabFixedFileIsClean(t);
    }
  }

  // ----- The two passes whose checkers are not modelled -----

  /** What such a pass is run on, and what its checker answers: file `i` is compliant, or would be rewritten so. */
  datatype External = External(files: seq<SourceFile>, compliant: seq<bool>, rewritten: seq<string>) {
    ghost predicate Valid() {
      |compliant| == |files| == |rewritten|
    }
  }

  ghost predicate AllTrue(bs: seq<bool>) {
    forall i | 0 <= i < |bs| :: bs[i]
  }

  /** Such a pass in check mode. */
  method CheckExternal(x: External) returns (successful: bool)
    requires x.Valid()
    ensures successful <==> AllTrue(x.compliant)
  {
    successful := true;
    for i := 0 to |x.files|
      invariant successful <==> AllTrue(x.compliant[..i])
    {
      assert x.compliant[..i + 1] == x.compliant[..i] + [x.compliant[i]];
      successful := successful && x.compliant[i];
    }
    assert x.compliant[..|x.files|] == x.compliant;
  }

  /** And in fix mode, where it always counts as successful. */
  method FixExternal(x: External)
    requires x.Valid()
    modifies x.files
  {
    for i := 0 to |x.files| {
      if !x.compliant[i] {
        x.files[i].text := x.rewritten[i];
      }
    }
  }

  // ----- The driver -----

  /** Which passes are enabled. */
  datatype Passes = Passes(includePrefixes: bool, formatting: bool, whitespace: bool, tabs: bool)

  /** The last two passes: whitespace, then tabs. */
  method WhitespaceThenTabs(enabled: Passes, spaceFiles: seq<SourceFile>, tabFiles: seq<SourceFile>, fix: bool, verbose: bool)
    returns (successful: bool)
    modifies spaceFiles, tabFiles
    ensures fix ==> successful
    ensures fix && enabled.whitespace ==> All(spaceFiles, WhitespaceEffect().clean)
    ensures fix && enabled.tabs ==> All(tabFiles, TabsEffect().clean)
    ensures !fix ==> (successful <==>
              && (enabled.whitespace ==> old(All(spaceFiles, WhitespaceEffect().clean)))
              && (enabled.tabs ==> old(All(tabFiles, TabsEffect().clean))))
    ensures !fix ==> SameTexts(spaceFiles) && SameTexts(tabFiles)
  {
    EffectsRepair();
    var spaceSuccessful, tabSuccessful := true, true;
    if enabled.whitespace {
      spaceSuccessful := CheckStyleFile(spaceFiles, Whitespace, fix, verbose, WhitespaceEffect(), []);
    }
    if enabled.tabs {
      tabSuccessful := CheckStyleFile(tabFiles, Tabs, fix, verbose, TabsEffect(), spaceFiles);
    }
    successful := spaceSuccessful && tabSuccessful;
  }

  /** The four passes in their order, each over its own files.  Whatever the first two do to the files, the last two leave
      theirs clean. */
  method CheckStyle(enabled: Passes, includes: External, formatting: External,
                    spaceFiles: seq<SourceFile>, tabFiles: seq<SourceFile>, fix: bool, verbose: bool)
    returns (successful: bool)
    requires includes.Valid() && formatting.Valid()
    modifies includes.files, formatting.files, spaceFiles, tabFiles
    ensures fix ==> successful
    ensures fix && enabled.whitespace ==> All(spaceFiles, WhitespaceEffect().clean)
    ensures fix && enabled.tabs ==> All(tabFiles, TabsEffect().clean)
    ensures !fix ==> (successful <==>
              && (enabled.includePrefixes ==> AllTrue(includes.compliant))
              && (enabled.formatting ==> AllTrue(formatting.compliant))
              && (enabled.whitespace ==> old(All(spaceFiles, WhitespaceEffect().clean)))
              && (enabled.tabs ==> old(All(tabFiles, TabsEffect().clean))))
    ensures !fix ==> SameTexts(spaceFiles) && SameTexts(tabFiles)
  {
    var includesSuccessful, formattingSuccessful := true, true;
    if enabled.includePrefixes {
      if fix {
        FixExternal(includes);
      } else {
        includesSuccessful := CheckExternal(includes);
      }
    }
    if enabled.formatting {
      if fix {
        FixExternal(formatting);
      } else {
        formattingSuccessful := CheckExternal(formatting);
      }
    }
    var lastSuccessful := WhitespaceThenTabs(enabled, spaceFiles, tabFiles, fix, verbose);
    successful := includesSuccessful && formattingSuccessful && lastSuccessful;
  }

  /** A check right after a fix succeeds, for all files of the two modelled passes, if the other two checkers then accept
      theirs. */
  method FixThenCheck(enabled: Passes, includes: External, formatting: External, includesAgain: External, formattingAgain: External,
                      spaceFiles: seq<SourceFile>, tabFiles: seq<SourceFile>, verbose: bool)
    returns (successful: bool)
    requires includes.Valid() && formatting.Valid() && includesAgain.Valid() && formattingAgain.Valid()
    requires includesAgain.files == includes.files && formattingAgain.files == formatting.files
    modifies includes.files, formatting.files, spaceFiles, tabFiles
    ensures successful <==>
              && (enabled.includePrefixes ==> AllTrue(includesAgain.compliant))
              && (enabled.formatting ==> AllTrue(formattingAgain.compliant))
  {
    var _ := CheckStyle(enabled, includes, formatting, spaceFiles, tabFiles, true, verbose);
    successful := CheckStyle(enabled, includesAgain, formattingAgain, spaceFiles, tabFiles, false, verbose);
  }
}
