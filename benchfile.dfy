/**
 * The grammar of one line of a bench file, as the `nom` parsers of
 * `benchfile.rs` accept it:
 *
 *     start, words = target | options, more | targets ; comment
 *
 * Left of `=`, commas separate start words; right of `=`, commas separate
 * target groups and `|` separates the options of one group. Spaces and tabs
 * may surround every separator and the whole line; `;` starts a comment.
 *
 * Every parser returns `Some(Parsed(rest, value))` on success and `None` on a
 * recoverable `nom` error. The position such an error carries is never
 * observed: every inner error is absorbed by `separated_list1` or `opt`, and
 * only the final `eof` check reports where it stopped.
 */
module BenchFile {
  import opened Wrappers

  /** A successful parse: the input left over and the value read. */
  datatype Parsed<+T> = Parsed(rest: string, value: T)

  /** `(StartWords, Targets)`: the start words and the target groups of one line. */
  type BenchDef = (seq<string>, seq<seq<string>>)

  /** The characters `space0` skips. */
  predicate IsSpace(c: char) {
    c == ' ' || c == '\t'
  }

  /**
   * What Rust's `char::is_alphanumeric` answers on the characters the grammar
   * relies on: the separators, the comment mark and the blanks are not
   * alphanumeric. The rest of Unicode is left open.
   */
  ghost predicate AlnumSpec(alnum: char -> bool) {
    && !alnum(' ') && !alnum('\t') && !alnum(',') && !alnum('|') && !alnum('=') && !alnum(';')
  }

  /** A word the grammar returns: non-empty and alphanumeric throughout. */
  ghost predicate IsWord(alnum: char -> bool, w: string) {
    |w| > 0 && forall i :: 0 <= i < |w| ==> alnum(w[i])
  }

  /** A non-empty list of words: what `start_words` and `target` return. */
  ghost predicate IsGroup(alnum: char -> bool, g: seq<string>) {
    |g| > 0 && forall w :: w in g ==> IsWord(alnum, w)
  }

  /** A bench: non-empty start words and a non-empty list of non-empty target groups. */
  ghost predicate IsBenchDef(alnum: char -> bool, b: BenchDef) {
    IsGroup(alnum, b.0) && |b.1| > 0 && forall g :: g in b.1 ==> IsGroup(alnum, g)
  }

  /** `space0`: skip spaces and tabs; never fails. */
  function Space0(s: string): (r: string)
    ensures |r| <= |s|
    ensures r == [] || !IsSpace(r[0])
  {
    if s != [] && IsSpace(s[0]) then Space0(s[1..]) else s
  }

  /** `space0` skips exactly a prefix of blanks. */
  lemma {:induction false} Space0Prefix(s: string)
    ensures Space0(s) == s[|s| - |Space0(s)|..]
    ensures forall i :: 0 <= i < |s| - |Space0(s)| ==> IsSpace(s[i])
    decreases |s|
  {
    if s != [] && IsSpace(s[0]) {
      Space0Prefix(s[1..]);
    }
  }

  /** The length of the longest alphanumeric prefix of `s`. */
  function AlnumRun(alnum: char -> bool, s: string): (n: nat)
    ensures n <= |s|
  {
    if s != [] && alnum(s[0]) then 1 + AlnumRun(alnum, s[1..]) else 0
  }

  /** `AlnumRun` stops at the first character that is not alphanumeric. */
  lemma {:induction false} AlnumRunMaximal(alnum: char -> bool, s: string)
    ensures forall i :: 0 <= i < AlnumRun(alnum, s) ==> alnum(s[i])
    ensures AlnumRun(alnum, s) == |s| || !alnum(s[AlnumRun(alnum, s)])
    decreases |s|
  {
    if s != [] && alnum(s[0]) {
      AlnumRunMaximal(alnum, s[1..]);
    }
  }

  /** `word`: `take_while1(char::is_alphanumeric)`, the longest non-empty alphanumeric prefix. */
  function Word(alnum: char -> bool, s: string): (r: Option<Parsed<string>>)
    ensures r.None? <==> s == [] || !alnum(s[0])
    ensures r.Some? ==> IsWord(alnum, r.value.value) && s == r.value.value + r.value.rest
    ensures r.Some? ==> r.value.rest == [] || !alnum(r.value.rest[0])
  {
    var n := AlnumRun(alnum, s);
    AlnumRunMaximal(alnum, s);
    if n == 0 then None else Some(Parsed(s[n..], s[..n]))
  }

  /** `delimited(space0, char(c), space0)`: a separator with optional blanks around it. */
  function Sep(c: char, s: string): (r: Option<string>)
    ensures r.None? <==> Space0(s) == [] || Space0(s)[0] != c
    ensures r.Some? ==> |r.value| < |s| && (r.value == [] || !IsSpace(r.value[0]))
  {
    var a := Space0(s);
    if a != [] && a[0] == c then Some(Space0(a[1..])) else None
  }

  /**
   * `separated_list1(sep(c), word)`: one word, then as many `sep word` pairs
   * as parse; a separator not followed by a word is left unconsumed.
   */
  function WordList(alnum: char -> bool, c: char, s: string): (r: Option<Parsed<seq<string>>>)
    ensures r.None? <==> s == [] || !alnum(s[0])
    ensures r.Some? ==> |r.value.value| > 0 && |r.value.rest| < |s|
  {
    match Word(alnum, s)
    case None => None
    case Some(first) =>
      var more := MoreWords(alnum, c, first.rest);
      Some(Parsed(more.rest, [first.value] + more.value))
  }

  /** The loop of `separated_list1` over words: the `sep word` pairs after the first word. */
  function MoreWords(alnum: char -> bool, c: char, s: string): (r: Parsed<seq<string>>)
    ensures |r.rest| <= |s|
    decreases |s|
  {
    match Sep(c, s)
    case None => Parsed(s, [])
    case Some(afterSep) =>
      match Word(alnum, afterSep)
      case None => Parsed(s, [])
      case Some(next) =>
        var more := MoreWords(alnum, c, next.rest);
        Parsed(more.rest, [next.value] + more.value)
  }

  /** `start_words`: words separated by commas. */
  function StartWords(alnum: char -> bool, s: string): Option<Parsed<seq<string>>> {
    WordList(alnum, ',', s)
  }

  /** `target`: the options of one target group, separated by `|`. */
  function Target(alnum: char -> bool, s: string): Option<Parsed<seq<string>>> {
    WordList(alnum, '|', s)
  }

  /** `targets`: `separated_list1(sep(','), target)`, target groups separated by commas. */
  function Targets(alnum: char -> bool, s: string): (r: Option<Parsed<seq<seq<string>>>>)
    ensures r.None? <==> s == [] || !alnum(s[0])
    ensures r.Some? ==> |r.value.value| > 0 && |r.value.rest| < |s|
  {
    match Target(alnum, s)
    case None => None
    case Some(first) =>
      var more := MoreTargets(alnum, first.rest);
      Some(Parsed(more.rest, [first.value] + more.value))
  }

  /** The loop of `separated_list1` over target groups. */
  function MoreTargets(alnum: char -> bool, s: string): (r: Parsed<seq<seq<string>>>)
    ensures |r.rest| <= |s|
    decreases |s|
  {
    match Sep(',', s)
    case None => Parsed(s, [])
    case Some(afterSep) =>
      match Target(alnum, afterSep)
      case None => Parsed(s, [])
      case Some(next) =>
        var more := MoreTargets(alnum, next.rest);
        Parsed(more.rest, [next.value] + more.value)
  }

  /** `bench`: `separated_pair(start_words, sep('='), targets)`. */
  function Bench(alnum: char -> bool, s: string): (r: Option<Parsed<BenchDef>>)
    ensures r.Some? ==> |r.value.rest| < |s|
  {
    match StartWords(alnum, s)
    case None => None
    case Some(starts) =>
      match Sep('=', starts.rest)
      case None => None
      case Some(afterEq) =>
        match Targets(alnum, afterEq)
        case None => None
        case Some(groups) => Some(Parsed(groups.rest, (starts.value, groups.value)))
  }

  /** `comment`: `;` and everything after it. */
  function Comment(s: string): (r: Option<Parsed<string>>)
    ensures r.Some? <==> s != [] && s[0] == ';'
    ensures r.Some? ==> r.value.rest == [] && s == [';'] + r.value.value
  {
    if s != [] && s[0] == ';' then Some(Parsed([], s[1..])) else None
  }

  /**
   * `bench_line`: optional blanks, an optional bench, optional blanks, an
   * optional comment, then the end of the line. The only error is the `eof`
   * check, which reports the input left at that point.
   */
  function BenchLine(alnum: char -> bool, line: string): (r: Result<Parsed<Option<BenchDef>>, string>)
    ensures r.Ok? ==> r.value.rest == []
    ensures r.Err? ==> r.error != [] && !IsSpace(r.error[0]) && r.error[0] != ';'
  {
    var afterLead := Space0(line);
    var bench := Bench(alnum, afterLead);
    var afterBench := if bench.Some? then bench.value.rest else afterLead;
    var beforeComment := Space0(afterBench);
    var comment := Comment(beforeComment);
    var atEnd := if comment.Some? then comment.value.rest else beforeComment;
    var value := if bench.Some? then Some(bench.value.value) else None;
    if atEnd == [] then Ok(Parsed(atEnd, value)) else Err(atEnd)
  }

  lemma {:induction false} MoreWordsAreWords(alnum: char -> bool, c: char, s: string)
    ensures forall w :: w in MoreWords(alnum, c, s).value ==> IsWord(alnum, w)
    decreases |s|
  {
    var afterSep := Sep(c, s);
    if afterSep.Some? && Word(alnum, afterSep.value).Some? {
      MoreWordsAreWords(alnum, c, Word(alnum, afterSep.value).value.rest);
    }
  }

  lemma WordListIsGroup(alnum: char -> bool, c: char, s: string)
    requires WordList(alnum, c, s).Some?
    ensures IsGroup(alnum, WordList(alnum, c, s).value.value)
  {
    MoreWordsAreWords(alnum, c, Word(alnum, s).value.rest);
  }

  lemma {:induction false} MoreTargetsAreGroups(alnum: char -> bool, s: string)
    ensures forall g :: g in MoreTargets(alnum, s).value ==> IsGroup(alnum, g)
    decreases |s|
  {
    var afterSep := Sep(',', s);
    if afterSep.Some? && Target(alnum, afterSep.value).Some? {
      WordListIsGroup(alnum, '|', afterSep.value);
      MoreTargetsAreGroups(alnum, Target(alnum, afterSep.value).value.rest);
    }
  }

  /**
   * Every bench a line parses to has at least one start word and at least
   * one target group, every group has at least one option, and every word is
   * non-empty and alphanumeric.
   */
  lemma BenchLineWellFormed(alnum: char -> bool, line: string)
    requires BenchLine(alnum, line).Ok? && BenchLine(alnum, line).value.value.Some?
    ensures IsBenchDef(alnum, BenchLine(alnum, line).value.value.value)
  {
    var a := Space0(line);
    var starts := StartWords(alnum, a).value;
    WordListIsGroup(alnum, ',', a);
    var afterEq := Sep('=', starts.rest).value;
    WordListIsGroup(alnum, '|', afterEq);
    MoreTargetsAreGroups(alnum, Target(alnum, afterEq).value.rest);
  }

  /** A line that holds nothing but blanks and perhaps a comment. */
  predicate IsBlankOrComment(s: string) {
    var r := Space0(s);
    r == [] || r[0] == ';'
  }

  lemma Space0Idempotent(s: string)
    ensures Space0(Space0(s)) == Space0(s)
  {
  }

  /**
   * Blank lines and comment lines, and only those, parse to `None`; anything
   * else either parses to a bench or is rejected.
   */
  lemma NoneIffBlankOrComment(alnum: char -> bool, line: string)
    requires AlnumSpec(alnum)
    ensures BenchLine(alnum, line) == Ok(Parsed([], None)) <==> IsBlankOrComment(line)
  {
    var a := Space0(line);
    Space0Idempotent(line);
    if IsBlankOrComment(line) {
      assert Bench(alnum, a) == None;
    }
  }

  /** `join`: the words with `sep` between each two. */
  function Join(ws: seq<string>, sep: string): string {
    if ws == [] then [] else ws[0] + SepEach(ws[1..], sep)
  }

  /** Each word preceded by `sep`. */
  function SepEach(ws: seq<string>, sep: string): string {
    if ws == [] then [] else sep + ws[0] + SepEach(ws[1..], sep)
  }

  /** The target groups, options joined by `" | "` and groups by `", "`. */
  function JoinGroups(gs: seq<seq<string>>): string {
    if gs == [] then [] else Join(gs[0], " | ") + SepEachGroup(gs[1..])
  }

  /** Each target group preceded by `", "`. */
  function SepEachGroup(gs: seq<seq<string>>): string {
    if gs == [] then [] else ", " + Join(gs[0], " | ") + SepEachGroup(gs[1..])
  }

  /** The line of a bench, written the way the test lines are. */
  function Render(b: BenchDef): string {
    Join(b.0, ", ") + " = " + JoinGroups(b.1)
  }

  /** Spaces and tabs only. */
  predicate Blanks(s: string) {
    forall i :: 0 <= i < |s| ==> IsSpace(s[i])
  }

  /** The three separators of the grammar. */
  predicate IsSepChar(c: char) {
    c == ',' || c == '|' || c == '='
  }

  /** The blanks written before and after one separator. */
  type Gap = (string, string)

  /** Separator `c` with the blanks of `g` before and after it. */
  function SepText(c: char, g: Gap): string {
    g.0 + [c] + g.1
  }

  /** Every gap holds only blanks. */
  predicate BlankGaps(gaps: seq<Gap>) {
    forall i :: 0 <= i < |gaps| ==> Blanks(gaps[i].0) && Blanks(gaps[i].1)
  }

  /** Each word preceded by separator `c`, with its own blanks around it. */
  function Spread(c: char, ws: seq<string>, gaps: seq<Gap>): string
    requires |gaps| == |ws|
  {
    if ws == [] then [] else SepText(c, gaps[0]) + ws[0] + Spread(c, ws[1..], gaps[1..])
  }

  /** A non-empty list of words, with one gap for each separator between two words. */
  function JoinSpaced(c: char, ws: seq<string>, gaps: seq<Gap>): string
    requires |ws| > 0 && |gaps| == |ws| - 1
  {
    ws[0] + Spread(c, ws[1..], gaps)
  }

  /** One list of gaps per target group, one gap for each bar between two options. */
  predicate OptionsFit(gs: seq<seq<string>>, opts: seq<seq<Gap>>) {
    |opts| == |gs| && forall i :: 0 <= i < |gs| ==> |gs[i]| > 0 && |opts[i]| == |gs[i]| - 1
  }

  predicate BlankOptions(opts: seq<seq<Gap>>) {
    forall i :: 0 <= i < |opts| ==> BlankGaps(opts[i])
  }

  /** Each target group preceded by a comma, with its own blanks around it. */
  function SpreadGroups(gs: seq<seq<string>>, gaps: seq<Gap>, opts: seq<seq<Gap>>): string
    requires |gaps| == |gs| && OptionsFit(gs, opts)
  {
    if gs == [] then []
    else SepText(',', gaps[0]) + JoinSpaced('|', gs[0], opts[0]) + SpreadGroups(gs[1..], gaps[1..], opts[1..])
  }

  /** A non-empty list of target groups, with the blanks of `gaps` and `opts`. */
  function GroupsSpaced(gs: seq<seq<string>>, gaps: seq<Gap>, opts: seq<seq<Gap>>): string
    requires |gs| > 0 && |gaps| == |gs| - 1 && OptionsFit(gs, opts)
  {
    JoinSpaced('|', gs[0], opts[0]) + SpreadGroups(gs[1..], gaps, opts[1..])
  }

  /**
   * Where the blanks go in one written bench: around each comma between start
   * words, around the `=`, around each comma between target groups, and
   * around each bar between the options of a group.
   */
  datatype Layout = Layout(starts: seq<Gap>, eq: Gap, groups: seq<Gap>, options: seq<seq<Gap>>)

  /** A layout with one gap for each separator of `b`, every gap blank. */
  predicate Fits(b: BenchDef, l: Layout) {
    && |b.0| > 0 && |l.starts| == |b.0| - 1
    && |b.1| > 0 && |l.groups| == |b.1| - 1 && OptionsFit(b.1, l.options)
    && BlankGaps(l.starts) && Blanks(l.eq.0) && Blanks(l.eq.1)
    && BlankGaps(l.groups) && BlankOptions(l.options)
  }

  /** A bench written with the blanks of layout `l`. */
  function RenderSpaced(b: BenchDef, l: Layout): string
    requires Fits(b, l)
  {
    JoinSpaced(',', b.0, l.starts) + SepText('=', l.eq) + GroupsSpaced(b.1, l.groups, l.options)
  }

  /** `n` copies of one gap. */
  function Repeat(g: Gap, n: nat): (r: seq<Gap>)
    ensures |r| == n && forall i :: 0 <= i < n ==> r[i] == g
  {
    if n == 0 then [] else [g] + Repeat(g, n - 1)
  }

  /** The gaps `Render` writes between the options of each group: one blank on each side of the bar. */
  function CanonicalOptions(gs: seq<seq<string>>): (r: seq<seq<Gap>>)
    requires forall i :: 0 <= i < |gs| ==> |gs[i]| > 0
    ensures OptionsFit(gs, r) && BlankOptions(r)
    ensures forall i :: 0 <= i < |gs| ==> r[i] == Repeat((" ", " "), |gs[i]| - 1)
  {
    if gs == [] then [] else [Repeat((" ", " "), |gs[0]| - 1)] + CanonicalOptions(gs[1..])
  }

  /** The layout `Render` writes: `", "`, `" = "`, `", "` and `" | "`. */
  function Canonical(b: BenchDef): (l: Layout)
    requires |b.0| > 0 && |b.1| > 0 && forall i :: 0 <= i < |b.1| ==> |b.1[i]| > 0
    ensures Fits(b, l)
  {
    Layout(Repeat(("", " "), |b.0| - 1), (" ", " "), Repeat(("", " "), |b.1| - 1), CanonicalOptions(b.1))
  }

  lemma {:induction false} SpreadUniform(c: char, g: Gap, ws: seq<string>)
    ensures Spread(c, ws, Repeat(g, |ws|)) == SepEach(ws, SepText(c, g))
    decreases |ws|
  {
    if ws != [] {
      assert Repeat(g, |ws|)[1..] == Repeat(g, |ws| - 1);
      SpreadUniform(c, g, ws[1..]);
    }
  }

  /** The same gap at every separator writes `join` with that separator. */
  lemma JoinUniform(c: char, g: Gap, ws: seq<string>)
    requires |ws| > 0
    ensures JoinSpaced(c, ws, Repeat(g, |ws| - 1)) == Join(ws, SepText(c, g))
  {
    SpreadUniform(c, g, ws[1..]);
  }

  lemma {:induction false} SpreadGroupsUniform(gs: seq<seq<string>>)
    requires forall i :: 0 <= i < |gs| ==> |gs[i]| > 0
    ensures SpreadGroups(gs, Repeat(("", " "), |gs|), CanonicalOptions(gs)) == SepEachGroup(gs)
    decreases |gs|
  {
    if gs != [] {
      assert SepText(',', ("", " ")) == ", ";
      assert SepText('|', (" ", " ")) == " | ";
      assert Repeat(("", " "), |gs|)[1..] == Repeat(("", " "), |gs| - 1);
      JoinUniform('|', (" ", " "), gs[0]);
      SpreadGroupsUniform(gs[1..]);
    }
  }

  /** `Render` writes a bench with the canonical layout. */
  lemma RenderIsSpaced(b: BenchDef)
    requires |b.0| > 0 && |b.1| > 0 && forall i :: 0 <= i < |b.1| ==> |b.1[i]| > 0
    ensures RenderSpaced(b, Canonical(b)) == Render(b)
  {
    assert SepText(',', ("", " ")) == ", ";
    assert SepText('=', (" ", " ")) == " = ";
    assert SepText('|', (" ", " ")) == " | ";
    JoinUniform(',', ("", " "), b.0);
    JoinUniform('|', (" ", " "), b.1[0]);
    SpreadGroupsUniform(b.1[1..]);
  }

  lemma {:induction false} Space0Skip(lead: string, s: string)
    requires Blanks(lead)
    requires s == [] || !IsSpace(s[0])
    ensures Space0(lead + s) == s
    decreases |lead|
  {
    if lead == [] {
      assert lead + s == s;
    } else {
      var x := lead + s;
      assert x[0] == lead[0] && x[1..] == lead[1..] + s;
      Space0Skip(lead[1..], s);
    }
  }

  /**
   * `delimited(space0, char(c), space0)` reads a separator with any run of
   * blanks on either side, and stops at whatever follows the blanks.
   */
  lemma SepBlanks(c: char, g: Gap, s: string)
    requires !IsSpace(c) && Blanks(g.0) && Blanks(g.1)
    requires s == [] || !IsSpace(s[0])
    ensures Sep(c, SepText(c, g) + s) == Some(s)
  {
    var rest := [c] + (g.1 + s);
    assert SepText(c, g) + s == g.0 + rest;
    Space0Skip(g.0, rest);
    assert rest[1..] == g.1 + s;
    Space0Skip(g.1, s);
  }

  /** A written separator starts with a character that is not alphanumeric. */
  lemma SepTextHead(alnum: char -> bool, c: char, g: Gap, s: string)
    requires AlnumSpec(alnum) && IsSepChar(c) && Blanks(g.0)
    ensures SepText(c, g) + s != [] && !alnum((SepText(c, g) + s)[0])
  {
    if g.0 == [] {
      assert SepText(c, g) + s == [c] + (g.1 + s);
    } else {
      assert (SepText(c, g) + s)[0] == g.0[0];
    }
  }

  /** A written separator other than `d` ends a list separated by `d`. */
  lemma OtherSepEndsList(alnum: char -> bool, c: char, d: char, g: Gap, s: string)
    requires AlnumSpec(alnum) && IsSepChar(c) && c != d && Blanks(g.0)
    ensures EndsList(alnum, d, SepText(c, g) + s)
  {
    var rest := [c] + (g.1 + s);
    assert SepText(c, g) + s == g.0 + rest;
    Space0Skip(g.0, rest);
    SepTextHead(alnum, c, g, s);
    assert Sep(d, SepText(c, g) + s) == None;
  }

  lemma {:induction false} AlnumRunOf(alnum: char -> bool, w: string, tail: string)
    requires forall i :: 0 <= i < |w| ==> alnum(w[i])
    requires tail == [] || !alnum(tail[0])
    ensures AlnumRun(alnum, w + tail) == |w|
    decreases |w|
  {
    if w != [] {
      assert (w + tail)[1..] == w[1..] + tail;
      AlnumRunOf(alnum, w[1..], tail);
    }
  }

  lemma WordOf(alnum: char -> bool, w: string, tail: string)
    requires IsWord(alnum, w)
    requires tail == [] || !alnum(tail[0])
    ensures Word(alnum, w + tail) == Some(Parsed(tail, w))
  {
    AlnumRunOf(alnum, w, tail);
    assert (w + tail)[..|w|] == w && (w + tail)[|w|..] == tail;
  }

  /** What follows a written list does not continue it. */
  ghost predicate EndsList(alnum: char -> bool, c: char, tail: string) {
    (tail == [] || !alnum(tail[0])) && MoreWords(alnum, c, tail) == Parsed(tail, [])
  }

  /** What follows a written word ends that word. */
  lemma SpreadEndsWord(alnum: char -> bool, c: char, ws: seq<string>, gaps: seq<Gap>, tail: string)
    requires AlnumSpec(alnum) && IsSepChar(c) && |gaps| == |ws| && BlankGaps(gaps)
    requires EndsList(alnum, c, tail)
    ensures var x := Spread(c, ws, gaps) + tail; x == [] || !alnum(x[0])
  {
    if ws != [] {
      var after := ws[0] + Spread(c, ws[1..], gaps[1..]) + tail;
      Associative(SepText(c, gaps[0]), ws[0], Spread(c, ws[1..], gaps[1..]), tail);
      SepTextHead(alnum, c, gaps[0], after);
    } else {
      assert Spread(c, ws, gaps) + tail == tail;
    }
  }

  /** The first word of a written list is read back, up to the separator after it. */
  lemma WordFirst(alnum: char -> bool, c: char, ws: seq<string>, gaps: seq<Gap>, tail: string)
    requires AlnumSpec(alnum) && IsSepChar(c)
    requires IsGroup(alnum, ws) && |gaps| == |ws| - 1 && BlankGaps(gaps)
    requires EndsList(alnum, c, tail)
    ensures Word(alnum, JoinSpaced(c, ws, gaps) + tail) == Some(Parsed(Spread(c, ws[1..], gaps) + tail, ws[0]))
    ensures !IsSpace((JoinSpaced(c, ws, gaps) + tail)[0])
  {
    var after := Spread(c, ws[1..], gaps) + tail;
    Associative3(ws[0], Spread(c, ws[1..], gaps), tail);
    assert ws[0] in ws;
    SpreadEndsWord(alnum, c, ws[1..], gaps, tail);
    WordOf(alnum, ws[0], after);
  }

  lemma SpreadJoin(c: char, ws: seq<string>, gaps: seq<Gap>, tail: string)
    requires |ws| > 0 && |gaps| == |ws|
    ensures Spread(c, ws, gaps) + tail == SepText(c, gaps[0]) + (JoinSpaced(c, ws, gaps[1..]) + tail)
  {
    var r := Spread(c, ws[1..], gaps[1..]);
    assert Spread(c, ws, gaps) == SepText(c, gaps[0]) + ws[0] + r;
    Associative(SepText(c, gaps[0]), ws[0], r, tail);
  }

  /** One round of the `separated_list1` loop over words: a separator and a word. */
  lemma MoreWordsStep(alnum: char -> bool, c: char, ws: seq<string>, gaps: seq<Gap>, tail: string)
    requires !IsSpace(c) && |ws| > 0 && |gaps| == |ws| && Blanks(gaps[0].0) && Blanks(gaps[0].1)
    requires Word(alnum, JoinSpaced(c, ws, gaps[1..]) + tail) == Some(Parsed(Spread(c, ws[1..], gaps[1..]) + tail, ws[0]))
    requires !IsSpace((JoinSpaced(c, ws, gaps[1..]) + tail)[0])
    requires MoreWords(alnum, c, Spread(c, ws[1..], gaps[1..]) + tail) == Parsed(tail, ws[1..])
    ensures MoreWords(alnum, c, Spread(c, ws, gaps) + tail) == Parsed(tail, ws)
  {
    var x := JoinSpaced(c, ws, gaps[1..]) + tail;
    SpreadJoin(c, ws, gaps, tail);
    SepBlanks(c, gaps[0], x);
    MoreWordsUnfold(alnum, c, Spread(c, ws, gaps) + tail, x, ws[0], Spread(c, ws[1..], gaps[1..]) + tail);
    assert [ws[0]] + ws[1..] == ws;
  }

  /** The loop over words, one round unfolded. */
  lemma MoreWordsUnfold(alnum: char -> bool, c: char, s: string, x: string, w: string, after: string)
    requires Sep(c, s) == Some(x)
    requires Word(alnum, x) == Some(Parsed(after, w))
    ensures MoreWords(alnum, c, s) ==
      Parsed(MoreWords(alnum, c, after).rest, [w] + MoreWords(alnum, c, after).value)
  {
  }

  lemma {:induction false} MoreWordsOf(alnum: char -> bool, c: char, ws: seq<string>, gaps: seq<Gap>, tail: string)
    requires AlnumSpec(alnum) && IsSepChar(c)
    requires (forall w :: w in ws ==> IsWord(alnum, w)) && |gaps| == |ws| && BlankGaps(gaps)
    requires EndsList(alnum, c, tail)
    ensures MoreWords(alnum, c, Spread(c, ws, gaps) + tail) == Parsed(tail, ws)
    decreases |ws|
  {
    if ws == [] {
      assert Spread(c, ws, gaps) + tail == tail;
    } else {
      WordFirst(alnum, c, ws, gaps[1..], tail);
      MoreWordsOf(alnum, c, ws[1..], gaps[1..], tail);
      MoreWordsStep(alnum, c, ws, gaps, tail);
    }
  }

  /** `separated_list1` over words: the first word, then the loop. */
  lemma WordListCons(alnum: char -> bool, c: char, ws: seq<string>, gaps: seq<Gap>, tail: string)
    requires |ws| > 0 && |gaps| == |ws| - 1
    requires Word(alnum, JoinSpaced(c, ws, gaps) + tail) == Some(Parsed(Spread(c, ws[1..], gaps) + tail, ws[0]))
    requires MoreWords(alnum, c, Spread(c, ws[1..], gaps) + tail) == Parsed(tail, ws[1..])
    ensures WordList(alnum, c, JoinSpaced(c, ws, gaps) + tail) == Some(Parsed(tail, ws))
  {
    assert [ws[0]] + ws[1..] == ws;
  }

  /** A written list of words, with any blanks around its separators, parses back to the same words. */
  lemma WordListOf(alnum: char -> bool, c: char, ws: seq<string>, gaps: seq<Gap>, tail: string)
    requires AlnumSpec(alnum) && IsSepChar(c)
    requires IsGroup(alnum, ws) && |gaps| == |ws| - 1 && BlankGaps(gaps)
    requires EndsList(alnum, c, tail)
    ensures WordList(alnum, c, JoinSpaced(c, ws, gaps) + tail) == Some(Parsed(tail, ws))
    ensures !IsSpace((JoinSpaced(c, ws, gaps) + tail)[0])
  {
    WordFirst(alnum, c, ws, gaps, tail);
    MoreWordsOf(alnum, c, ws[1..], gaps, tail);
    WordListCons(alnum, c, ws, gaps, tail);
  }

  /** What follows the written target groups does not continue them. */
  ghost predicate EndsGroups(alnum: char -> bool, tail: string) {
    EndsList(alnum, '|', tail) && MoreTargets(alnum, tail) == Parsed(tail, [])
  }

  /** The groups after the first, or the end of the line, end the first group's options. */
  lemma RestEndsGroup(alnum: char -> bool, gs: seq<seq<string>>, gaps: seq<Gap>, opts: seq<seq<Gap>>, tail: string)
    requires AlnumSpec(alnum)
    requires |gaps| == |gs| && OptionsFit(gs, opts) && BlankGaps(gaps)
    requires EndsGroups(alnum, tail)
    ensures EndsList(alnum, '|', SpreadGroups(gs, gaps, opts) + tail)
  {
    if gs != [] {
      var r := JoinSpaced('|', gs[0], opts[0]) + SpreadGroups(gs[1..], gaps[1..], opts[1..]);
      Associative(SepText(',', gaps[0]), JoinSpaced('|', gs[0], opts[0]), SpreadGroups(gs[1..], gaps[1..], opts[1..]), tail);
      OtherSepEndsList(alnum, ',', '|', gaps[0], r + tail);
    } else {
      assert SpreadGroups(gs, gaps, opts) + tail == tail;
    }
  }

  /** A written target group followed by the groups after it. */
  lemma GroupThenRest(alnum: char -> bool, gs: seq<seq<string>>, gaps: seq<Gap>, opts: seq<seq<Gap>>, tail: string)
    requires AlnumSpec(alnum)
    requires |gs| > 0 && forall g :: g in gs ==> IsGroup(alnum, g)
    requires |gaps| == |gs| - 1 && OptionsFit(gs, opts) && BlankGaps(gaps) && BlankOptions(opts)
    requires EndsGroups(alnum, tail)
    ensures Target(alnum, GroupsSpaced(gs, gaps, opts) + tail) == Some(Parsed(SpreadGroups(gs[1..], gaps, opts[1..]) + tail, gs[0]))
    ensures !IsSpace((GroupsSpaced(gs, gaps, opts) + tail)[0])
  {
    var first := JoinSpaced('|', gs[0], opts[0]);
    var after := SpreadGroups(gs[1..], gaps, opts[1..]) + tail;
    assert GroupsSpaced(gs, gaps, opts) + tail == first + after by {
      Associative3(first, SpreadGroups(gs[1..], gaps, opts[1..]), tail);
    }
    assert IsGroup(alnum, gs[0]) && |opts[0]| == |gs[0]| - 1 && BlankGaps(opts[0]) by {
      assert gs[0] in gs;
    }
    RestEndsGroup(alnum, gs[1..], gaps, opts[1..], tail);
    WordListOf(alnum, '|', gs[0], opts[0], after);
  }

  lemma SpreadGroupsJoin(gs: seq<seq<string>>, gaps: seq<Gap>, opts: seq<seq<Gap>>, tail: string)
    requires |gs| > 0 && |gaps| == |gs| && OptionsFit(gs, opts)
    ensures SpreadGroups(gs, gaps, opts) + tail == SepText(',', gaps[0]) + (GroupsSpaced(gs, gaps[1..], opts) + tail)
  {
    var j, r := JoinSpaced('|', gs[0], opts[0]), SpreadGroups(gs[1..], gaps[1..], opts[1..]);
    assert SpreadGroups(gs, gaps, opts) == SepText(',', gaps[0]) + j + r;
    assert GroupsSpaced(gs, gaps[1..], opts) == j + r;
    Associative(SepText(',', gaps[0]), j, r, tail);
  }

  /** The comma in front of each group is a separator that leads to the groups. */
  lemma SepBeforeGroups(gs: seq<seq<string>>, gaps: seq<Gap>, opts: seq<seq<Gap>>, tail: string)
    requires |gs| > 0 && |gaps| == |gs| && OptionsFit(gs, opts) && Blanks(gaps[0].0) && Blanks(gaps[0].1)
    requires |GroupsSpaced(gs, gaps[1..], opts) + tail| > 0 && !IsSpace((GroupsSpaced(gs, gaps[1..], opts) + tail)[0])
    ensures Sep(',', SpreadGroups(gs, gaps, opts) + tail) == Some(GroupsSpaced(gs, gaps[1..], opts) + tail)
  {
    SpreadGroupsJoin(gs, gaps, opts, tail);
    SepBlanks(',', gaps[0], GroupsSpaced(gs, gaps[1..], opts) + tail);
  }

  /** One round of the `separated_list1` loop over target groups: a separator, a group, then the remaining groups. */
  lemma MoreTargetsCons(alnum: char -> bool, s: string, x: string, after: string, tail: string, all: seq<seq<string>>)
    requires |all| > 0
    requires Sep(',', s) == Some(x)
    requires Target(alnum, x) == Some(Parsed(after, all[0]))
    requires MoreTargets(alnum, after) == Parsed(tail, all[1..])
    ensures MoreTargets(alnum, s) == Parsed(tail, all)
  {
    MoreTargetsUnfold(alnum, s, x, all[0], after);
    assert [all[0]] + all[1..] == all;
  }

  lemma Associative(a: string, b: string, c: string, d: string)
    ensures a + b + c + d == a + (b + c + d)
  {
  }

  lemma Associative3(a: string, b: string, c: string)
    ensures a + b + c == a + (b + c)
  {
  }

  /** The loop over target groups, one round unfolded. */
  lemma MoreTargetsUnfold(alnum: char -> bool, s: string, x: string, g: seq<string>, after: string)
    requires Sep(',', s) == Some(x)
    requires Target(alnum, x) == Some(Parsed(after, g))
    ensures MoreTargets(alnum, s) ==
      Parsed(MoreTargets(alnum, after).rest, [g] + MoreTargets(alnum, after).value)
  {
  }

  lemma {:induction false} MoreTargetsOf(alnum: char -> bool, gs: seq<seq<string>>, gaps: seq<Gap>, opts: seq<seq<Gap>>, tail: string)
    requires AlnumSpec(alnum)
    requires forall g :: g in gs ==> IsGroup(alnum, g)
    requires |gaps| == |gs| && OptionsFit(gs, opts) && BlankGaps(gaps) && BlankOptions(opts)
    requires EndsGroups(alnum, tail)
    ensures MoreTargets(alnum, SpreadGroups(gs, gaps, opts) + tail) == Parsed(tail, gs)
    decreases |gs|
  {
    if gs == [] {
      assert SpreadGroups(gs, gaps, opts) + tail == tail;
    } else {
      GroupThenRest(alnum, gs, gaps[1..], opts, tail);
      MoreTargetsOf(alnum, gs[1..], gaps[1..], opts[1..], tail);
      SepBeforeGroups(gs, gaps, opts, tail);
      MoreTargetsCons(alnum, SpreadGroups(gs, gaps, opts) + tail, GroupsSpaced(gs, gaps[1..], opts) + tail,
        SpreadGroups(gs[1..], gaps[1..], opts[1..]) + tail, tail, gs);
    }
  }

  /** `targets`: the first target group, then the loop. */
  lemma TargetsCons(alnum: char -> bool, gs: seq<seq<string>>, gaps: seq<Gap>, opts: seq<seq<Gap>>, tail: string)
    requires |gs| > 0 && |gaps| == |gs| - 1 && OptionsFit(gs, opts)
    requires Target(alnum, GroupsSpaced(gs, gaps, opts) + tail) == Some(Parsed(SpreadGroups(gs[1..], gaps, opts[1..]) + tail, gs[0]))
    requires MoreTargets(alnum, SpreadGroups(gs[1..], gaps, opts[1..]) + tail) == Parsed(tail, gs[1..])
    ensures Targets(alnum, GroupsSpaced(gs, gaps, opts) + tail) == Some(Parsed(tail, gs))
  {
    assert [gs[0]] + gs[1..] == gs;
  }

  /** Written target groups, with any blanks around their separators, parse back to the same groups. */
  lemma TargetsOf(alnum: char -> bool, gs: seq<seq<string>>, gaps: seq<Gap>, opts: seq<seq<Gap>>, tail: string)
    requires AlnumSpec(alnum)
    requires |gs| > 0 && forall g :: g in gs ==> IsGroup(alnum, g)
    requires |gaps| == |gs| - 1 && OptionsFit(gs, opts) && BlankGaps(gaps) && BlankOptions(opts)
    requires EndsGroups(alnum, tail)
    ensures Targets(alnum, GroupsSpaced(gs, gaps, opts) + tail) == Some(Parsed(tail, gs))
    ensures !IsSpace((GroupsSpaced(gs, gaps, opts) + tail)[0])
  {
    GroupThenRest(alnum, gs, gaps, opts, tail);
    MoreTargetsOf(alnum, gs[1..], gaps, opts[1..], tail);
    TargetsCons(alnum, gs, gaps, opts, tail);
  }

  /** A written bench parses back to the same bench, leaving the tail. */
  lemma BenchOf(alnum: char -> bool, b: BenchDef, l: Layout, tail: string)
    requires AlnumSpec(alnum) && IsBenchDef(alnum, b) && Fits(b, l)
    requires EndsGroups(alnum, tail)
    ensures Bench(alnum, RenderSpaced(b, l) + tail) == Some(Parsed(tail, b))
    ensures !IsSpace((RenderSpaced(b, l) + tail)[0])
  {
    var starts := JoinSpaced(',', b.0, l.starts);
    var groups := GroupsSpaced(b.1, l.groups, l.options) + tail;
    var afterStarts := SepText('=', l.eq) + groups;
    Associative(starts, SepText('=', l.eq), GroupsSpaced(b.1, l.groups, l.options), tail);
    Associative3(SepText('=', l.eq), GroupsSpaced(b.1, l.groups, l.options), tail);
    TargetsOf(alnum, b.1, l.groups, l.options, tail);
    OtherSepEndsList(alnum, '=', ',', l.eq, groups);
    WordListOf(alnum, ',', b.0, l.starts, afterStarts);
    SepBlanks('=', l.eq, groups);
  }

  /** A trailing `" |"` ends every list: the bar has no option after it. */
  lemma BarEndsGroups(alnum: char -> bool)
    requires AlnumSpec(alnum)
    ensures EndsGroups(alnum, " |") && Space0(" |") == "|"
  {
    assert Space0(" |") == "|";
    assert Sep('|', " |") == Some([]);
    assert Sep(',', " |") == None;
  }

  /** Blanks and a comment end every list. */
  lemma BlankOrCommentEnds(alnum: char -> bool, tail: string)
    requires AlnumSpec(alnum) && IsBlankOrComment(tail)
    ensures EndsGroups(alnum, tail)
  {
    if tail != [] && Space0(tail) == tail {
      assert tail[0] == ';';
    }
  }

  /**
   * Round trip: a bench written with any blanks around each of its
   * separators, with any blanks in front and any blanks or comment after it,
   * parses back to the same bench.
   */
  lemma RenderSpacedParses(alnum: char -> bool, lead: string, b: BenchDef, l: Layout, tail: string)
    requires AlnumSpec(alnum) && IsBenchDef(alnum, b) && Fits(b, l)
    requires Blanks(lead) && IsBlankOrComment(tail)
    ensures BenchLine(alnum, lead + RenderSpaced(b, l) + tail) == Ok(Parsed([], Some(b)))
  {
    BlankOrCommentEnds(alnum, tail);
    BenchOf(alnum, b, l, tail);
    Associative3(lead, RenderSpaced(b, l), tail);
    Space0Skip(lead, RenderSpaced(b, l) + tail);
  }

  lemma BenchDefShaped(alnum: char -> bool, b: BenchDef)
    requires IsBenchDef(alnum, b)
    ensures |b.0| > 0 && |b.1| > 0 && forall i :: 0 <= i < |b.1| ==> |b.1[i]| > 0
  {
    forall i | 0 <= i < |b.1| ensures |b.1[i]| > 0 {
      assert b.1[i] in b.1;
    }
  }

  /**
   * The canonical round trip: a bench rendered as `s1, s2 = t1 | t2, t3`,
   * with any blanks in front and any blanks or comment after it, parses back
   * to the same bench.
   */
  lemma RenderParses(alnum: char -> bool, lead: string, b: BenchDef, tail: string)
    requires AlnumSpec(alnum) && IsBenchDef(alnum, b)
    requires Blanks(lead)
    requires IsBlankOrComment(tail)
    ensures BenchLine(alnum, lead + Render(b) + tail) == Ok(Parsed([], Some(b)))
  {
    BenchDefShaped(alnum, b);
    RenderIsSpaced(b);
    RenderSpacedParses(alnum, lead, b, Canonical(b), tail);
  }

  /** A rendered definition on a line of its own parses back to itself. */
  lemma RenderAloneParses(alnum: char -> bool, b: BenchDef)
    requires AlnumSpec(alnum) && IsBenchDef(alnum, b)
    ensures BenchLine(alnum, Render(b)) == Ok(Parsed([], Some(b)))
  {
    BenchDefShaped(alnum, b);
    RenderIsSpaced(b);
    var line := Render(b);
    BlankOrCommentEnds(alnum, []);
    BenchOf(alnum, b, Canonical(b), []);
    assert line + [] == line;
    assert Space0(line) == line;
    assert Bench(alnum, line) == Some(Parsed([], b));
  }

  /**
   * The line `abc, def , ghi = xyz`: blanks on both sides of the second comma
   * and none before the first are accepted alike.
   */
  lemma UnevenBlanksParse(alnum: char -> bool)
    requires AlnumSpec(alnum)
    requires forall c :: c in "abcdefghixyz" ==> alnum(c)
    ensures BenchLine(alnum, "abc, def , ghi = xyz") == Ok(Parsed([], Some((["abc", "def", "ghi"], [["xyz"]]))))
  {
    var b: BenchDef := (["abc", "def", "ghi"], [["xyz"]]);
    var l := Layout([("", " "), (" ", " ")], (" ", " "), [], [[]]);
    UnevenWords(alnum);
    UnevenLayout();
    var line := RenderSpaced(b, l);
    BlankOrCommentEnds(alnum, []);
    BenchOf(alnum, b, l, []);
    assert line + [] == line;
    BenchLineAfterBench(alnum, line, b, []);
  }

  lemma UnevenWords(alnum: char -> bool)
    requires forall c :: c in "abcdefghixyz" ==> alnum(c)
    ensures IsBenchDef(alnum, (["abc", "def", "ghi"], [["xyz"]]))
  {
    forall w | w in ["abc", "def", "ghi", "xyz"] ensures IsWord(alnum, w) {
      assert forall i :: 0 <= i < |w| ==> w[i] in "abcdefghixyz";
    }
    assert forall g :: g in [["xyz"]] ==> g == ["xyz"];
  }

  /** The line `abc, def , ghi = xyz` is the bench written with uneven blanks. */
  lemma UnevenLayout()
    ensures var b: BenchDef := (["abc", "def", "ghi"], [["xyz"]]);
      var l := Layout([("", " "), (" ", " ")], (" ", " "), [], [[]]);
      Fits(b, l) && RenderSpaced(b, l) == "abc, def , ghi = xyz"
  {
    var b: BenchDef := (["abc", "def", "ghi"], [["xyz"]]);
    var l := Layout([("", " "), (" ", " ")], (" ", " "), [], [[]]);
    assert Fits(b, l);
    UnevenStarts();
    assert SepText('=', l.eq) == " = ";
    assert GroupsSpaced(b.1, l.groups, l.options) == "xyz";
    UnevenText();
  }

  lemma UnevenText()
    ensures "abc, def , ghi" + " = " + "xyz" == "abc, def , ghi = xyz"
  {
  }

  lemma UnevenStarts()
    ensures JoinSpaced(',', ["abc", "def", "ghi"], [("", " "), (" ", " ")]) == "abc, def , ghi"
  {
    assert Spread(',', ["ghi"], [(" ", " ")]) == " , ghi";
    assert Spread(',', ["def", "ghi"], [("", " "), (" ", " ")]) == ", def , ghi";
  }

  /** A trailing comma is rejected, whatever the blanks, and the error points at it. */
  lemma TrailingCommaRejected(alnum: char -> bool, b: BenchDef, l: Layout)
    requires AlnumSpec(alnum) && IsBenchDef(alnum, b) && Fits(b, l)
    ensures BenchLine(alnum, RenderSpaced(b, l) + ",") == Err(",")
  {
    OtherSepEndsList(alnum, ',', '|', ("", ""), []);
    assert SepText(',', ("", "")) + [] == ",";
    assert Sep(',', ",") == Some([]);
    assert MoreTargets(alnum, ",") == Parsed(",", []);
    BenchOf(alnum, b, l, ",");
  }

  /** A trailing `|` is rejected, whatever the blanks, and the error points at it. */
  lemma TrailingBarRejected(alnum: char -> bool, b: BenchDef, l: Layout)
    requires AlnumSpec(alnum) && IsBenchDef(alnum, b) && Fits(b, l)
    ensures BenchLine(alnum, RenderSpaced(b, l) + " |") == Err("|")
  {
    BarEndsGroups(alnum);
    BenchOf(alnum, b, l, " |");
    BenchLineAfterBench(alnum, RenderSpaced(b, l) + " |", b, " |");
  }

  /** A line that starts with a bench: what follows the bench decides the outcome. */
  lemma BenchLineAfterBench(alnum: char -> bool, line: string, b: BenchDef, rest: string)
    requires line != [] && !IsSpace(line[0])
    requires Bench(alnum, line) == Some(Parsed(rest, b))
    ensures var r := Space0(rest);
      BenchLine(alnum, line) == if r == [] || r[0] == ';' then Ok(Parsed([], Some(b))) else Err(r)
  {
    assert Space0(line) == line;
  }

  /** Start words without `=` and targets are rejected, with the whole line as the error. */
  lemma MissingEqualsRejected(alnum: char -> bool, ws: seq<string>, gaps: seq<Gap>)
    requires AlnumSpec(alnum) && IsGroup(alnum, ws) && |gaps| == |ws| - 1 && BlankGaps(gaps)
    ensures BenchLine(alnum, JoinSpaced(',', ws, gaps)) == Err(JoinSpaced(',', ws, gaps))
  {
    var line := JoinSpaced(',', ws, gaps);
    assert line + [] == line;
    WordListOf(alnum, ',', ws, gaps, []);
  }
}
