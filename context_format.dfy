/**
 * `format_context`: the labelled text block handed to the language model
 * for one verse pair, and a reader for it that shows every field is
 * copied verbatim and in its fixed place.
 */
module ContextFormat {
  import opened Wrappers
  import opened Text
  import opened Resolver

  const BookLabel := "LIBRO: "
  const ChapterLabel := "CAPÍTULO: "
  const VerseLabel := "VERSÍCULO: "
  const GreekHeading := "\nTEXTO ORIGINAL (Griego Koiné):\n"
  const SpanishHeading := "\nTRADUCCIÓN (Reina-Valera 1960):\n"

  /** A labelled line followed by the rest of the block. */
  function Labelled(tag: string, line: string, rest: string): string {
    tag + line + "\n" + rest
  }

  /** The context block: book, chapter and verse lines, then the Greek and the Spanish text under their headings. */
  function FormatContext(p: VersePair): string {
    Labelled(BookLabel, p.libro,
      Labelled(ChapterLabel, IntToString(p.capitulo),
        Labelled(VerseLabel, IntToString(p.versiculo),
          Labelled(GreekHeading, p.griego,
            SpanishHeading + p.espanol))))
  }

  /** The text after `prefix`, when `s` starts with it. */
  function After(prefix: string, s: string): (r: Option<string>)
    ensures r.Some? <==> |prefix| <= |s| && s[..|prefix|] == prefix
    ensures r.Some? ==> s == prefix + r.value
  {
    if |prefix| <= |s| && s[..|prefix|] == prefix then Some(s[|prefix|..]) else None
  }

  /** Splits at the first line break: the line before it and the text after it. */
  function SplitLine(s: string): (r: Option<(string, string)>)
    ensures r.Some? ==> '\n' !in r.value.0 && s == r.value.0 + "\n" + r.value.1
  {
    if s == [] then None
    else if s[0] == '\n' then Some(([], s[1..]))
    else
      match SplitLine(s[1..])
      case None => None
      case Some((line, rest)) => Some(([s[0]] + line, rest))
  }

  /** The line after `tag` and the text after that line. */
  function ReadLabelled(tag: string, s: string): Option<(string, string)> {
    match After(tag, s)
    case None => None
    case Some(r) => SplitLine(r)
  }

  /** Reads a context block back into the pair it shows. */
  function ParseContext(s: string): Option<VersePair> {
    match ReadLabelled(BookLabel, s)
    case None => None
    case Some((libro, r1)) =>
      match ReadLabelled(ChapterLabel, r1)
      case None => None
      case Some((cs, r2)) =>
        match ReadLabelled(VerseLabel, r2)
        case None => None
        case Some((vs, r3)) =>
          match ReadLabelled(GreekHeading, r3)
          case None => None
          case Some((griego, r4)) =>
            match (After(SpanishHeading, r4), ParseInt(cs), ParseInt(vs))
            case (Some(espanol), Some(c), Some(v)) => Some(VersePair(griego, espanol, libro, c, v))
            case _ => None
  }

  lemma {:induction false} SplitLineOf(line: string, rest: string)
    requires '\n' !in line
    ensures SplitLine(line + "\n" + rest) == Some((line, rest))
  {
    if line != [] {
      assert (line + "\n" + rest)[1..] == line[1..] + "\n" + rest;
      SplitLineOf(line[1..], rest);
      assert [line[0]] + line[1..] == line;
    } else {
      assert (line + "\n" + rest)[1..] == rest;
    }
  }

  lemma AfterOf(prefix: string, rest: string)
    ensures After(prefix, prefix + rest) == Some(rest)
  {
    assert (prefix + rest)[..|prefix|] == prefix;
    assert (prefix + rest)[|prefix|..] == rest;
  }

  lemma ReadLabelledOf(tag: string, line: string, rest: string)
    requires '\n' !in line
    ensures ReadLabelled(tag, Labelled(tag, line, rest)) == Some((line, rest))
  {
    assert Labelled(tag, line, rest) == tag + (line + "\n" + rest);
    AfterOf(tag, line + "\n" + rest);
    SplitLineOf(line, rest);
  }

  lemma NoLineBreakInInt(i: int)
    ensures '\n' !in IntToString(i)
  {
  }

  /**
   * Every field is copied verbatim into its labelled place: when the book
   * name and the Greek text are single lines, the block reads back as the
   * pair it was made from.
   */
  lemma FormatContextRoundTrip(p: VersePair)
    requires '\n' !in p.libro && '\n' !in p.griego
    ensures ParseContext(FormatContext(p)) == Some(p)
  {
    var cs := IntToString(p.capitulo);
    var vs := IntToString(p.versiculo);
    NoLineBreakInInt(p.capitulo);
    NoLineBreakInInt(p.versiculo);
    var r4 := SpanishHeading + p.espanol;
    var r3 := Labelled(GreekHeading, p.griego, r4);
    var r2 := Labelled(VerseLabel, vs, r3);
    var r1 := Labelled(ChapterLabel, cs, r2);
    ReadLabelledOf(BookLabel, p.libro, r1);
    ReadLabelledOf(ChapterLabel, cs, r2);
    ReadLabelledOf(VerseLabel, vs, r3);
    ReadLabelledOf(GreekHeading, p.griego, r4);
    AfterOf(SpanishHeading, p.espanol);
    IntToStringRoundTrip(p.capitulo);
    IntToStringRoundTrip(p.versiculo);
  }

  /**
   * Without that condition the block is ambiguous: a Greek text that
   * itself contains the translation heading renders exactly like a
   * different pair.
   */
  lemma FormatContextAmbiguous()
    ensures exists p: VersePair, q: VersePair :: p != q && FormatContext(p) == FormatContext(q)
  {
    var p, q := MovedHeading("a", "b", "c", "Juan", 3, 16);
  }

  /**
   * Moving a Spanish heading line from the end of the Greek text to the
   * start of the Spanish text changes the pair but not the block.
   */
  lemma MovedHeading(x: string, y: string, z: string, libro: string, capitulo: int, versiculo: int)
    returns (p: VersePair, q: VersePair)
    ensures p != q && FormatContext(p) == FormatContext(q)
  {
    p := VersePair(x + "\n" + SpanishHeading + y, z, libro, capitulo, versiculo);
    q := VersePair(x, y + "\n" + SpanishHeading + z, libro, capitulo, versiculo);
    assert |p.griego| != |q.griego|;
    HeadingInGreek(GreekHeading, x, SpanishHeading, y, z);
    SameBlock(p, q);
  }

  /** Two pairs at the same location whose Greek-and-Spanish tails print alike print the same block. */
  lemma SameBlock(p: VersePair, q: VersePair)
    requires p.libro == q.libro && p.capitulo == q.capitulo && p.versiculo == q.versiculo
    requires Labelled(GreekHeading, p.griego, SpanishHeading + p.espanol) == Labelled(GreekHeading, q.griego, SpanishHeading + q.espanol)
    ensures FormatContext(p) == FormatContext(q)
  {
  }

  /** A heading line inside the Greek text reads the same as the start of the Spanish part. */
  lemma HeadingInGreek(tag: string, x: string, heading: string, y: string, z: string)
    ensures Labelled(tag, x + "\n" + heading + y, heading + z) == Labelled(tag, x, heading + (y + "\n" + heading + z))
  {
    var nl := "\n";
    calc {
      Labelled(tag, x + nl + heading + y, heading + z);
      tag + (x + nl + heading + y) + nl + (heading + z);
      tag + x + nl + (heading + (y + nl + heading + z));
      Labelled(tag, x, heading + (y + nl + heading + z));
    }
  }
}
