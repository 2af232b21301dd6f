/** The HTML export: the components' contents joined with line breaks, and a
    line splitter that recovers the parts wherever no content holds a line
    break of its own. */
module Export {
  import opened Components

  /** The strings of `xs` with `sep` between each adjacent pair. */
  function Join(xs: seq<string>, sep: string): string
  {
    if xs == [] then ""
    else if |xs| == 1 then xs[0]
    else xs[0] + sep + Join(xs[1..], sep)
  }

  /** The parts of `s` between the occurrences of `sep`; always at least one
      part, and no part contains `sep`. */
  function Split(s: string, sep: char): (parts: seq<string>)
    ensures |parts| >= 1
    ensures forall k :: 0 <= k < |parts| ==> sep !in parts[k]
    decreases |s|
  {
    if s == [] then [""]
    else
      var rest := Split(s[1..], sep);
      if s[0] == sep then [""] + rest
      else [[s[0]] + rest[0]] + rest[1..]
  }

  /** Sum of the lengths of the strings of `xs`. */
  function TotalLength(xs: seq<string>): nat
  {
    if xs == [] then 0 else |xs[0]| + TotalLength(xs[1..])
  }

  /** The contents of the components, in list order. */
  function Contents(s: seq<Component>): (r: seq<string>)
    ensures |r| == |s|
    ensures forall k :: 0 <= k < |s| ==> r[k] == s[k].content
  {
    if s == [] then [] else [s[0].content] + Contents(s[1..])
  }

  /** `generateHTML`: the contents joined by a line break. */
  function Html(s: seq<Component>): string
  {
    Join(Contents(s), "\n")
  }

  /** Appending a part adds exactly one separator and the part, at the end:
      the join adds no separator after the last part. */
  lemma {:induction false} JoinSnoc(xs: seq<string>, y: string, sep: string)
    requires xs != []
    ensures Join(xs + [y], sep) == Join(xs, sep) + sep + y
  {
    if |xs| == 1 {
      assert xs + [y] == [xs[0], y];
      assert [xs[0], y][1..] == [y];
    } else {
      assert (xs + [y])[1..] == xs[1..] + [y];
      JoinSnoc(xs[1..], y, sep);
    }
  }

  /** The joined text is exactly as long as its parts and one separator
      between each adjacent pair. */
  lemma {:induction false} JoinLength(xs: seq<string>, sep: string)
    ensures xs != [] ==> |Join(xs, sep)| == TotalLength(xs) + (|xs| - 1) * |sep|
    ensures xs == [] ==> Join(xs, sep) == ""
  {
    if |xs| > 1 {
      JoinLength(xs[1..], sep);
    }
  }

  /** A text without the separator is one part. */
  lemma {:induction false} SplitNoSep(x: string, sep: char)
    requires sep !in x
    ensures Split(x, sep) == [x]
  {
    if x != [] {
      assert sep !in x[1..];
      SplitNoSep(x[1..], sep);
      assert [x[0]] + x[1..] == x;
    }
  }

  /** A separator-free prefix followed by the separator splits off as the
      first part. */
  lemma {:induction false} SplitPrefix(x: string, sep: char, rest: string)
    requires sep !in x
    ensures Split(x + [sep] + rest, sep) == [x] + Split(rest, sep)
  {
    if x == [] {
      assert x + [sep] + rest == [sep] + rest;
      assert ([sep] + rest)[1..] == rest;
    } else {
      var t := x + [sep] + rest;
      assert t[0] == x[0];
      assert t[1..] == x[1..] + [sep] + rest;
      assert sep !in x[1..];
      SplitPrefix(x[1..], sep, rest);
      assert [x[0]] + x[1..] == x;
    }
  }

  /** Splitting the joined text at the separator gives the parts back, as
      long as there is a part and no part holds the separator itself. */
  lemma {:induction false} SplitJoin(xs: seq<string>, sep: char)
    requires xs != []
    requires forall k :: 0 <= k < |xs| ==> sep !in xs[k]
    ensures Split(Join(xs, [sep]), sep) == xs
  {
    if |xs| == 1 {
      SplitNoSep(xs[0], sep);
    } else {
      SplitJoin(xs[1..], sep);
      SplitPrefix(xs[0], sep, Join(xs[1..], [sep]));
      assert [xs[0]] + xs[1..] == xs;
    }
  }

  /** The export of an empty canvas is empty, of one component its content,
      and of a longer list the export of all but the last component, a line
      break and the last content: the join adds no line break after the
      last content. */
  lemma HtmlShape(s: seq<Component>)
    ensures s == [] ==> Html(s) == ""
    ensures |s| == 1 ==> Html(s) == s[0].content
    ensures |s| >= 2 ==> Html(s) == Html(s[..|s| - 1]) + "\n" + s[|s| - 1].content
  {
    if |s| >= 2 {
      var init := s[..|s| - 1];
      assert Contents(s) == Contents(init) + [s[|s| - 1].content];
      JoinSnoc(Contents(init), s[|s| - 1].content, "\n");
    }
  }

  /** The export is one line per component whenever no component's content
      spans several lines. */
  lemma HtmlLines(s: seq<Component>)
    ensures s != [] && (forall k :: 0 <= k < |s| ==> '\n' !in s[k].content) ==>
              Split(Html(s), '\n') == Contents(s)
  {
    if s != [] && (forall k :: 0 <= k < |s| ==> '\n' !in s[k].content) {
      assert "\n" == ['\n'];
      SplitJoin(Contents(s), '\n');
    }
  }
}
