/** The decisions `main` takes on the text the user typed: where the URL
    comes from, whether the download may proceed, and whether a custom
    output directory was given. Reading `sys.argv` and `input()` is left to
    the caller; these functions receive the resulting strings. */
module Cli {
  import opened Optional
  import opened PyStr

  const LongHost := "youtube.com"
  const ShortHost := "youtu.be"

  /** What `main` does with a URL: stop with "No URL provided!", stop with
      "Please provide a valid YouTube URL", or go on to the download. */
  datatype Decision = NoUrl | InvalidUrl | Proceed

  /** The URL `main` works with: the first command-line argument exactly as
      given when there is one (`args[0]` is the program name), otherwise the
      line typed at the prompt with its edge whitespace stripped. */
  function UrlFromInput(args: seq<string>, line: string): (url: string)
    ensures |args| > 1 ==> url == args[1]
    ensures |args| <= 1 ==> NoEdgeSpace(url) && |url| <= |line|
    ensures |args| <= 1 ==> exists i, j :: StripWindow(line, i, j) && url == line[i..j]
  {
    if |args| > 1 then args[1]
    else
      var url := Strip(line);
      StripNoEdgeSpace(line);
      url
  }

  /** The URL check of `main`: an empty URL is refused, and a non-empty one
      proceeds exactly when "youtube.com" or "youtu.be" occurs in it. No
      other part of the URL is examined. */
  function UrlGate(url: string): (d: Decision)
    ensures d == NoUrl <==> url == ""
    ensures d == Proceed <==> url != "" && (Occurs(url, LongHost) || Occurs(url, ShortHost))
  {
    if url == "" then NoUrl
    else if !(Contains(url, LongHost) || Contains(url, ShortHost)) then InvalidUrl
    else Proceed
  }

  /** The output directory typed at the second prompt, stripped; an empty
      answer keeps the default (the Desktop folder). */
  function CustomPath(line: string): (p: Option<string>)
    ensures p == None <==> AllSpace(line)
    ensures p.Some? ==> p.value != "" && NoEdgeSpace(p.value)
    ensures p.Some? ==> exists i, j :: StripWindow(line, i, j) && p.value == line[i..j]
  {
    var path := Strip(line);
    StripEmptyIff(line);
    StripNoEdgeSpace(line);
    if path == "" then None else Some(path)
  }

  /** A URL typed at the prompt that is only whitespace counts as no URL. */
  lemma BlankPromptIsNoUrl(args: seq<string>, line: string)
    requires |args| <= 1 && AllSpace(line)
    ensures UrlGate(UrlFromInput(args, line)) == NoUrl
  {
    StripEmptyIff(line);
  }

  /** A command-line argument is not stripped: one made only of whitespace
      passes the emptiness check and is refused as an invalid URL. */
  lemma BlankArgumentIsInvalid(args: seq<string>, line: string)
    requires |args| > 1 && args[1] != "" && AllSpace(args[1])
    ensures UrlGate(UrlFromInput(args, line)) == InvalidUrl
  {
    var url := args[1];
    assert !IsSpace('y');
    assert 'y' !in url;
    FirstCharAbsent(url, LongHost);
    FirstCharAbsent(url, ShortHost);
  }

  /** A watch URL on the long host proceeds. */
  lemma GateAcceptsWatchUrl()
    ensures UrlGate("https://www.youtube.com/watch?v=abc") == Proceed
  {
    var scheme, query := "https://www.", "/watch?v=abc";
    assert OccursAt(scheme + LongHost + query, LongHost, |scheme|);
    assert scheme + LongHost + query == "https://www.youtube.com/watch?v=abc";
  }

  /** A host name anywhere in the string is enough, even inside another
      word; any other site and the empty string are refused. */
  lemma GateExamples()
    ensures UrlGate("https://youtu.be/abc") == Proceed
    ensures UrlGate("notyoutube.com/foo") == Proceed
    ensures UrlGate("https://vimeo.com/123") == InvalidUrl
    ensures UrlGate("") == NoUrl
  {
    var short := "https://youtu.be/abc";
    assert OccursAt(short, ShortHost, 8);
    var lookalike := "notyoutube.com/foo";
    assert OccursAt(lookalike, LongHost, 3);
    var vimeo := "https://vimeo.com/123";
    assert 'y' !in vimeo;
    FirstCharAbsent(vimeo, LongHost);
    FirstCharAbsent(vimeo, ShortHost);
  }
}
