/**
 * The title deriver: an article's display title is the first line of its body,
 * cut to 50 characters with an ellipsis appended when it is longer.
 * JavaScript string lengths count UTF-16 units; here a string is a sequence of
 * characters and its length is the sequence length.
 */
module TitleExtractor {

  /** Longest first line kept whole. */
  const MaxTitleLength: nat := 50

  /** Marker appended to a truncated first line. */
  const Ellipsis: string := "..."

  /** `body.split('\n')[0]`: the text before the first newline, or the whole body when it has none. */
  function FirstLine(body: string): (line: string)
    ensures '\n' !in line
    ensures line <= body
    ensures line == body || body[|line|] == '\n'
  {
    if body == [] || body[0] == '\n' then [] else [body[0]] + FirstLine(body[1..])
  }

  /** `extractTitle`: the first line, or its first 50 characters followed by "..." when it is longer than 50. */
  function ExtractTitle(body: string): (title: string)
    ensures '\n' !in title
    ensures |title| <= MaxTitleLength + |Ellipsis|
    ensures title[..Min(|title|, MaxTitleLength)] <= body
  {
    var line := FirstLine(body);
    if |line| > MaxTitleLength then line[..MaxTitleLength] + Ellipsis else line
  }

  function Min(a: nat, b: nat): nat {
    if a <= b then a else b
  }

  /** A body without newline is its own first line. */
  lemma FirstLineOfSingleLine(body: string)
    requires '\n' !in body
    ensures FirstLine(body) == body
  {
  }

  /** The first line ends at the first newline, whatever follows it. */
  lemma {:induction false} FirstLineStopsAtNewline(a: string, rest: string)
    requires '\n' !in a
    ensures FirstLine(a + "\n" + rest) == a
  {
    if a != [] {
      assert (a + "\n" + rest)[1..] == a[1..] + "\n" + rest;
      FirstLineStopsAtNewline(a[1..], rest);
    }
  }

  /** A single line of at most 50 characters is its own title. */
  lemma ShortSingleLineIsTitle(body: string)
    requires '\n' !in body && |body| <= MaxTitleLength
    ensures ExtractTitle(body) == body
  {
    FirstLineOfSingleLine(body);
  }

  /** A first line longer than 50 characters yields its first 50 characters and the ellipsis: 53 characters. */
  lemma LongFirstLineIsTruncated(body: string)
    requires |FirstLine(body)| > MaxTitleLength
    ensures ExtractTitle(body) == body[..MaxTitleLength] + Ellipsis
    ensures |ExtractTitle(body)| == MaxTitleLength + |Ellipsis|
  {
    var line := FirstLine(body);
    assert line[..MaxTitleLength] == body[..MaxTitleLength];
  }

  /** A first line of at most 50 characters is returned whole, and it is a prefix of the body. */
  lemma ShortFirstLineIsPrefix(body: string)
    requires |FirstLine(body)| <= MaxTitleLength
    ensures ExtractTitle(body) == FirstLine(body)
    ensures ExtractTitle(body) <= body
  {
  }

  /** Only the first line matters: the lines after the first newline never change the title. */
  lemma OnlyFirstLineMatters(a: string, rest: string)
    requires '\n' !in a
    ensures ExtractTitle(a + "\n" + rest) == ExtractTitle(a)
  {
    FirstLineStopsAtNewline(a, rest);
    FirstLineOfSingleLine(a);
  }

  /** Deriving the title of a title changes nothing, so recomputing it on every write is stable. */
  lemma ExtractTitleIdempotent(body: string)
    ensures ExtractTitle(ExtractTitle(body)) == ExtractTitle(body)
  {
    var title := ExtractTitle(body);
    FirstLineOfSingleLine(title);
    if |FirstLine(body)| > MaxTitleLength {
      LongFirstLineIsTruncated(body);
      LongFirstLineIsTruncated(title);
      assert title[..MaxTitleLength] == body[..MaxTitleLength];
    }
  }

  /** The empty body yields the empty title. */
  lemma EmptyBodyHasEmptyTitle()
    ensures ExtractTitle("") == ""
  {
  }

  /** The body "Hello", a blank line and "World" has the title "Hello". */
  lemma TitleOfTwoParagraphBody()
    ensures ExtractTitle("Hello\n\nWorld") == "Hello"
  {
    OnlyFirstLineMatters("Hello", "\nWorld");
    assert "Hello" + "\n" + "\nWorld" == "Hello\n\nWorld";
    ShortSingleLineIsTitle("Hello");
  }
}
