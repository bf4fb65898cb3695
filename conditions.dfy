/**
 * The selection predicate of the `Condition` walks: an extension list, a
 * regular expression and a negation flag. The regular-expression engine is
 * left open: which patterns compile and which names a pattern matches are
 * parameters of the model.
 */
module Conditions {
  import opened Names

  /** `regexp.Compile` succeeds, and `MatchString` finds a match somewhere in the name. */
  datatype Regexp = Regexp(compiles: string -> bool, matches: (string, string) -> bool)

  /** `renfls.Condition`: its zero value configures no clause. */
  datatype Condition = Condition(exts: seq<string>, reg: string, ignore: bool)

  /** A configured extension is compared without its leading dot. */
  function StripDot(e: string): string {
    if |e| > 0 && e[0] == '.' then e[1..] else e
  }

  /** Some entry of `exts`, its dot stripped, is the dotless extension of `name`. */
  predicate ListedExt(exts: seq<string>, name: Name)
    decreases |exts|
  {
    |exts| > 0 && (StripDot(exts[0]) == DotlessExt(name) || ListedExt(exts[1..], name))
  }

  lemma {:induction false} ListedExtAt(exts: seq<string>, name: Name)
    ensures ListedExt(exts, name) <==> exists i :: 0 <= i < |exts| && StripDot(exts[i]) == DotlessExt(name)
    decreases |exts|
  {
    if |exts| > 0 {
      ListedExtAt(exts[1..], name);
      if StripDot(exts[0]) != DotlessExt(name) {
        forall i | 0 < i < |exts| ensures exts[i] == exts[1..][i - 1] {}
      }
    }
  }

  /** The clauses a file name meets before negation. */
  predicate Positive(c: Condition, rx: Regexp, name: Name) {
    if c.reg == "" && |c.exts| == 0 then true
    else (c.reg != "" && rx.matches(c.reg, name)) || (|c.exts| > 0 && ListedExt(c.exts, name))
  }

  /** Whether a walk under condition `c` renames the file called `name`. */
  predicate Selects(c: Condition, rx: Regexp, name: Name) {
    if c.ignore then !Positive(c, rx, name) else Positive(c, rx, name)
  }

  /** The zero condition selects every file. */
  lemma EmptySelectsAll(rx: Regexp, name: Name)
    ensures Selects(Condition([], "", false), rx, name)
  {}

  /** `Ignore` alone selects nothing. */
  lemma IgnoreAloneSelectsNothing(rx: Regexp, name: Name)
    ensures !Selects(Condition([], "", true), rx, name)
  {}

  /** With only a pattern, exactly the matching names are selected. */
  lemma PatternOnly(rx: Regexp, reg: string, name: Name)
    requires reg != ""
    ensures Selects(Condition([], reg, false), rx, name) <==> rx.matches(reg, name)
  {}

  /** With only extensions, a name is selected exactly when its dotless extension is listed. */
  lemma ExtsOnly(rx: Regexp, exts: seq<string>, name: Name)
    requires |exts| > 0
    ensures Selects(Condition(exts, "", false), rx, name) <==>
            exists i :: 0 <= i < |exts| && StripDot(exts[i]) == DotlessExt(name)
  {
    ListedExtAt(exts, name);
  }

  /** Both clauses together form a disjunction. */
  lemma PatternOrExts(rx: Regexp, exts: seq<string>, reg: string, name: Name)
    requires reg != "" && |exts| > 0
    ensures Selects(Condition(exts, reg, false), rx, name) <==>
            rx.matches(reg, name) || ListedExt(exts, name)
  {}

  /** `Ignore` selects exactly the complement of the same clauses without it. */
  lemma IgnoreComplements(c: Condition, rx: Regexp, name: Name)
    ensures Selects(c.(ignore := true), rx, name) <==> !Selects(c.(ignore := false), rx, name)
  {}

  /** Over any set of names, a condition and its negation partition the set. */
  lemma IgnorePartitions(c: Condition, rx: Regexp, names: set<Name>)
    ensures (set n | n in names && Selects(c.(ignore := false), rx, n)) +
            (set n | n in names && Selects(c.(ignore := true), rx, n)) == names
    ensures (set n | n in names && Selects(c.(ignore := false), rx, n)) !!
            (set n | n in names && Selects(c.(ignore := true), rx, n))
  {}

  /** The regular expression `text*` as the table uses it: it matches text.txt only. */
  ghost predicate TextStar(rx: Regexp) {
    rx.matches("text*", "text.txt") && !rx.matches("text*", "image.jpg") && !rx.matches("text*", "data.csv")
  }

  /** The files of the table carry the dotless extensions txt, jpg and csv. */
  lemma TableExtensions()
    ensures DotlessExt("text.txt") == "txt"
    ensures DotlessExt("image.jpg") == "jpg"
    ensures DotlessExt("data.csv") == "csv"
  {
    ExtOfTxt();
    ExtOfJpg();
    ExtOfCsv();
  }

  /** The configured extensions of the table carry no dot and differ from one another. */
  lemma TableExtNames()
    ensures StripDot("txt") == "txt" && StripDot("csv") == "csv"
    ensures "txt" != "csv" && "txt" != "jpg" && "csv" != "jpg"
  {
    assert "txt"[0] == 't' && "csv"[0] == 'c' && "jpg"[0] == 'j';
  }

  /** A one-entry list names just its entry. */
  lemma ListedOne(a: string, name: Name)
    ensures ListedExt([a], name) <==> StripDot(a) == DotlessExt(name)
  {
    assert [a][1..] == [];
  }

  /** A two-entry list names both its entries. */
  lemma ListedTwo(a: string, b: string, name: Name)
    ensures ListedExt([a, b], name) <==> StripDot(a) == DotlessExt(name) || StripDot(b) == DotlessExt(name)
  {
    assert [a, b][1..] == [b];
    ListedOne(b, name);
  }

  // One lemma per file name: the literal computations of `Ext` are kept in
  // separate proofs, since together they cost the solver far more.

  lemma ExtOfTxt()
    ensures Ext("text.txt") == ".txt"
  {
    ExtOfTail("text", ".txt");
    assert "text" + ".txt" == "text.txt";
  }

  lemma ExtOfJpg()
    ensures Ext("image.jpg") == ".jpg"
  {
    ExtOfTail("image", ".jpg");
    assert "image" + ".jpg" == "image.jpg";
  }

  lemma ExtOfCsv()
    ensures Ext("data.csv") == ".csv"
  {
    ExtOfTail("data", ".csv");
    assert "data" + ".csv" == "data.csv";
  }

  // The rows of the `TestWalkRename` table, one lemma each: which of the
  // files text.txt, data.csv and image.jpg each condition renames.

  /** `Condition{}` renames every file. */
  lemma TableEmpty(rx: Regexp)
    ensures Selects(Condition([], "", false), rx, "text.txt") && Selects(Condition([], "", false), rx, "image.jpg")
  {}

  /** `Condition{Reg: text*}` renames text.txt only. */
  lemma TableReg(rx: Regexp)
    requires TextStar(rx)
    ensures Selects(Condition([], "text*", false), rx, "text.txt")
    ensures !Selects(Condition([], "text*", false), rx, "image.jpg")
  {}

  /** `Condition{Exts: txt, csv}` renames text.txt and data.csv, not image.jpg. */
  lemma TableExts(rx: Regexp)
    ensures Selects(Condition(["txt", "csv"], "", false), rx, "text.txt")
    ensures Selects(Condition(["txt", "csv"], "", false), rx, "data.csv")
    ensures !Selects(Condition(["txt", "csv"], "", false), rx, "image.jpg")
  {
    TableExtensions();
    TableExtNames();
    ListedTwo("txt", "csv", "text.txt");
    ListedTwo("txt", "csv", "data.csv");
    ListedTwo("txt", "csv", "image.jpg");
  }

  /** `Condition{Reg: text*, Exts: txt}` renames text.txt only. */
  lemma TableRegExts(rx: Regexp)
    requires TextStar(rx)
    ensures Selects(Condition(["txt"], "text*", false), rx, "text.txt")
    ensures !Selects(Condition(["txt"], "text*", false), rx, "data.csv")
    ensures !Selects(Condition(["txt"], "text*", false), rx, "image.jpg")
  {
    TableExtensions();
    TableExtNames();
    ListedOne("txt", "text.txt");
    ListedOne("txt", "data.csv");
    ListedOne("txt", "image.jpg");
  }

  /** `Condition{Ignore}` renames nothing. */
  lemma TableIgnore(rx: Regexp)
    ensures !Selects(Condition([], "", true), rx, "text.txt") && !Selects(Condition([], "", true), rx, "image.jpg")
  {}

  /** `Condition{Reg: text*, Ignore}` renames image.jpg only. */
  lemma TableRegIgnore(rx: Regexp)
    requires TextStar(rx)
    ensures Selects(Condition([], "text*", true), rx, "image.jpg")
    ensures !Selects(Condition([], "text*", true), rx, "text.txt")
  {}

  /** `Condition{Exts: txt, csv, Ignore}` renames image.jpg only. */
  lemma TableExtsIgnore(rx: Regexp)
    ensures Selects(Condition(["txt", "csv"], "", true), rx, "image.jpg")
    ensures !Selects(Condition(["txt", "csv"], "", true), rx, "text.txt")
    ensures !Selects(Condition(["txt", "csv"], "", true), rx, "data.csv")
  {
    TableExts(rx);
  }

  /** `Condition{Reg: text*, Exts: csv, Ignore}` renames image.jpg only. */
  lemma TableRegExtsIgnore(rx: Regexp)
    requires TextStar(rx)
    ensures Selects(Condition(["csv"], "text*", true), rx, "image.jpg")
    ensures !Selects(Condition(["csv"], "text*", true), rx, "text.txt")
    ensures !Selects(Condition(["csv"], "text*", true), rx, "data.csv")
  {
    TableExtensions();
    TableExtNames();
    ListedOne("csv", "text.txt");
    ListedOne("csv", "data.csv");
    ListedOne("csv", "image.jpg");
  }
}
