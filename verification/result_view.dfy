/**
 * The result page's text and number handling: the colour theme chosen by
 * the dominant type, the normalisation of analysis text into bullet items,
 * and the width of the score bars.
 */
module ResultView {
  import opened Wrappers
  import opened JsString

  const NeutralTheme: string := "bg-slate-50"

  /** Card colours per dominant type: one class string per D, I, S and C,
      and the neutral background for anything else. */
  function ThemeColor(dominantType: string): (r: string)
    ensures r == NeutralTheme <==> dominantType !in {"D", "I", "S", "C"}
  {
    match dominantType
    case "D" => "bg-red-50 text-red-900 border-red-200"
    case "I" => "bg-yellow-50 text-yellow-900 border-yellow-200"
    case "S" => "bg-green-50 text-green-900 border-green-200"
    case "C" => "bg-blue-50 text-blue-900 border-blue-200"
    case _ => NeutralTheme
  }

  /** The four types get four different themes. */
  lemma ThemeColorsDistinct(a: string, b: string)
    requires a in {"D", "I", "S", "C"} && b in {"D", "I", "S", "C"} && a != b
    ensures ThemeColor(a) != ThemeColor(b)
  {
  }

  // ---------------------------------------------------------------------
  // Bullet lists

  /** What an analysis field may hold: nothing (null or undefined), one
      newline-separated string, or a list that is already split. */
  datatype BulletSource = Missing | Text(text: string) | Lines(lines: seq<string>)

  /** The glyphs a bullet line may start with: hyphen, bullet, asterisk. */
  predicate IsBulletGlyph(c: char) {
    c == '-' || c == '\U{2022}' || c == '*'
  }

  /** One glyph at the very start of the line, with all white space after it,
      is removed; the pattern is anchored, so nothing happens elsewhere. */
  function StripBullet(line: string): (r: string)
    ensures line == [] || !IsBulletGlyph(line[0]) ==> r == line
    ensures line != [] && IsBulletGlyph(line[0]) ==> r == TrimStart(line[1..]) && |r| < |line|
  {
    if line != [] && IsBulletGlyph(line[0]) then TrimStart(line[1..]) else line
  }

  /** The text of one bullet item: the glyph removed, then trimmed. The
      white space the pattern removes after the glyph would be trimmed
      anyway, so an item is the trimmed line, or the trimmed rest after a
      leading glyph; it never starts or ends with white space. */
  function CleanItem(line: string): (r: string)
    ensures r == Trim(if line != [] && IsBulletGlyph(line[0]) then line[1..] else line)
    ensures r != [] ==> !IsWs(r[0]) && !IsWs(r[|r| - 1])
  {
    var r := Trim(StripBullet(line));
    StrippedTrim(line);
    r
  }

  /** Trimming what StripBullet leaves is trimming the line without its
      glyph. */
  lemma StrippedTrim(line: string)
    ensures Trim(StripBullet(line)) == Trim(if line != [] && IsBulletGlyph(line[0]) then line[1..] else line)
  {
    if line != [] && IsBulletGlyph(line[0]) {
      TrimAfterTrimStart(line[1..]);
    }
  }

  /** A glyph preceded by white space is not a bullet: the item is the
      trimmed line, which starts with that glyph. */
  lemma IndentedGlyphKept(line: string, indent: nat)
    requires 0 < indent < |line| && BlankBetween(line, 0, indent) && IsBulletGlyph(line[indent])
    ensures CleanItem(line) != [] && CleanItem(line)[0] == line[indent]
  {
    IndentedLineItem(line);
    GlyphIsNotWs(line[indent]);
    TrimStartsAt(line, indent);
  }

  lemma GlyphIsNotWs(c: char)
    requires IsBulletGlyph(c)
    ensures !IsWs(c)
  {
  }

  /** A line that starts with white space has no bullet to strip. */
  lemma IndentedLineItem(line: string)
    requires line != [] && IsWs(line[0])
    ensures CleanItem(line) == Trim(line)
  {
    assert !IsBulletGlyph(line[0]);
  }

  /** Only one glyph is removed: after a doubled glyph the item starts with
      the second one. */
  lemma OnlyOneGlyphRemoved(line: string)
    requires |line| >= 2 && IsBulletGlyph(line[0]) && IsBulletGlyph(line[1])
    ensures CleanItem(line) != [] && CleanItem(line)[0] == line[1]
  {
    var rest := line[1..];
    assert rest[0] == line[1];
    GlyphIsNotWs(line[1]);
    TrimKeepsFirst(rest);
  }

  /** Is `sub` obtained from `s` by deleting elements (order kept)? */
  ghost predicate IsSubsequence<T>(sub: seq<T>, s: seq<T>)
    decreases |s|
  {
    if sub == [] then true
    else if s == [] then false
    else (sub[0] == s[0] && IsSubsequence(sub[1..], s[1..])) || IsSubsequence(sub, s[1..])
  }

  /** The lines whose trim is not empty. They come in their original order,
      every occurrence of a non-blank line is kept and no blank line is. */
  function KeepNonBlank(lines: seq<string>): (r: seq<string>)
    ensures forall k :: 0 <= k < |r| ==> Trim(r[k]) != ""
    ensures forall l :: multiset(r)[l] == if Trim(l) == "" then 0 else multiset(lines)[l]
    ensures IsSubsequence(r, lines)
  {
    if lines == [] then []
    else
      var rest := KeepNonBlank(lines[1..]);
      var blank := Trim(lines[0]) == "";
      KeepStep(lines, rest, blank);
      if blank then rest else [lines[0]] + rest
  }

  /** One step of the filter: from what is kept of the tail, dropping or
      keeping the head keeps the three properties of KeepNonBlank. */
  lemma KeepStep(lines: seq<string>, rest: seq<string>, blank: bool)
    requires lines != [] && blank == IsBlank(lines[0])
    requires forall k :: 0 <= k < |rest| ==> !IsBlank(rest[k])
    requires forall l :: multiset(rest)[l] == if IsBlank(l) then 0 else multiset(lines[1..])[l]
    requires IsSubsequence(rest, lines[1..])
    ensures var r := if blank then rest else [lines[0]] + rest;
      (forall k :: 0 <= k < |r| ==> !IsBlank(r[k]))
      && (forall l :: multiset(r)[l] == if IsBlank(l) then 0 else multiset(lines)[l])
      && IsSubsequence(r, lines)
  {
    assert lines == [lines[0]] + lines[1..];
    if !blank {
      assert ([lines[0]] + rest)[1..] == rest;
    }
  }

  /** Every kept line turned into its item, in order. */
  function Items(lines: seq<string>): (r: seq<string>)
    ensures |r| == |KeepNonBlank(lines)|
    ensures forall k :: 0 <= k < |r| ==> r[k] == CleanItem(KeepNonBlank(lines)[k])
  {
    var kept := KeepNonBlank(lines);
    seq(|kept|, k requires 0 <= k < |kept| => CleanItem(kept[k]))
  }

  /** The lines a source is read as: a string is split at each newline, a
      list is taken as it is. */
  function SourceLines(src: BulletSource): (r: seq<string>)
    requires !src.Missing?
    ensures src.Lines? ==> r == src.lines
    ensures src.Text? ==> |r| >= 1 && Join(r, '\n') == src.text && forall k :: 0 <= k < |r| ==> '\n' !in r[k]
  {
    match src
    case Text(t) => JoinSplit(t, '\n'); Split(t, '\n')
    case Lines(ls) => ls
  }

  /** The items of an analysis field, or None when nothing is rendered.
      Nothing is rendered for a missing field or the empty string only: a
      list, even an empty one, and a string of blank lines both give a
      (possibly empty) list of items. */
  function RenderBulletList(src: BulletSource): (r: Option<seq<string>>)
    ensures r.None? <==> src.Missing? || src == Text("")
    ensures r.Some? ==> r.value == Items(SourceLines(src))
  {
    match src
    case Missing => None
    case Text(t) => if t == "" then None else Some(Items(Split(t, '\n')))
    case Lines(ls) => Some(Items(ls))
  }

  /** A non-empty text made by joining newline-free lines with newlines
      renders exactly the items of those lines: one per line that is not
      blank, in order. */
  lemma {:induction false} RenderTextLines(lines: seq<string>)
    requires |lines| >= 1 && Join(lines, '\n') != ""
    requires forall k :: 0 <= k < |lines| ==> '\n' !in lines[k]
    ensures var r := RenderBulletList(Text(Join(lines, '\n')));
      r.Some? && |r.value| == |KeepNonBlank(lines)|
      && forall k :: 0 <= k < |r.value| ==> r.value[k] == CleanItem(KeepNonBlank(lines)[k])
  {
    SplitJoin(lines, '\n');
  }

  // ---------------------------------------------------------------------
  // Score bars

  /** Score at which a bar is full. */
  const BarCeiling: int := 30

  /** Width of a score bar, in percent of the track. It grows in proportion
      to the score up to the ceiling and is full from there on. */
  function BarWidth(score: int): (r: real)
    ensures r <= 100.0
    ensures score >= BarCeiling ==> r == 100.0
    ensures score <= BarCeiling ==> r * (BarCeiling as real) == (score as real) * 100.0
    ensures score >= 0 ==> r >= 0.0
  {
    var w := (score as real) / (BarCeiling as real) * 100.0;
    if w < 100.0 then w else 100.0
  }

  /** A higher score never gives a narrower bar. */
  lemma BarWidthMonotone(a: int, b: int)
    requires a <= b
    ensures BarWidth(a) <= BarWidth(b)
  {
  }
}
