/** The prober of watcher.py (`check_pool`, lines 35-38 and 44): finding the
    pool name in the raw response text, status line and headers included. */
module Probe {
  import opened Wrappers
  import opened PyStr

  /** The marker a header line must contain. */
  const PoolHeader: string := "X-App-Pool:"

  /** The lines of the response: its pieces between newline characters. */
  function Lines(stdout: string): seq<string> {
    Split(stdout, '\n')
  }

  /** The value of a header line: its second colon-separated field, stripped. */
  function HeaderValue(line: string): string
    requires ':' in line
  {
    Strip(Split(line, ':')[1])
  }

  /** The marker has a colon in it, so every line that carries it can be split there. */
  lemma MarkerHasColon(line: string)
    requires Contains(line, PoolHeader)
    ensures ':' in line
  {
    ContainsChar(line, PoolHeader, 10);
  }

  /** The value of the first line that carries the marker, if any. */
  function FirstPool(lines: seq<string>): Option<string>
  {
    if lines == [] then None
    else if Contains(lines[0], PoolHeader) then
      MarkerHasColon(lines[0]);
      Some(HeaderValue(lines[0]))
    else FirstPool(lines[1..])
  }

  /** What one probe extracts from the response text. */
  function ExtractPool(stdout: string): Option<string> {
    FirstPool(Lines(stdout))
  }

  /** `FirstPool` finds nothing exactly when no line carries the marker, and
      otherwise reads the first line that does; later lines do not matter. */
  lemma {:induction false} FirstPoolSpec(lines: seq<string>, k: nat)
    ensures FirstPool(lines) == None <==> forall m :: 0 <= m < |lines| ==> !Contains(lines[m], PoolHeader)
    ensures k < |lines| && Contains(lines[k], PoolHeader)
            && (forall m :: 0 <= m < k ==> !Contains(lines[m], PoolHeader))
            ==> ':' in lines[k] && FirstPool(lines) == Some(HeaderValue(lines[k]))
    decreases |lines|
  {
    if lines != [] {
      FirstPoolSpec(lines[1..], if k > 0 then k - 1 else 0);
      if k < |lines| && Contains(lines[k], PoolHeader) {
        MarkerHasColon(lines[k]);
      }
      if !Contains(lines[0], PoolHeader) {
        assert forall m :: 1 <= m < |lines| ==> lines[m] == lines[1..][m - 1];
      }
    }
  }

  /** A response yields no pool exactly when the marker occurs nowhere in it:
      the guard on the whole text is the same test as "some line
      carries the marker", because the marker holds no newline. */
  lemma NoPoolIffNoMarker(stdout: string)
    ensures ExtractPool(stdout) == None <==> !Contains(stdout, PoolHeader)
  {
    var lines := Lines(stdout);
    FirstPoolSpec(lines, 0);
    if Contains(stdout, PoolHeader) {
      ContainsInSomePiece(stdout, '\n', PoolHeader);
    } else {
      forall m | 0 <= m < |lines| ensures !Contains(lines[m], PoolHeader) {
        if Contains(lines[m], PoolHeader) {
          PieceContains(stdout, '\n', m, PoolHeader);
        }
      }
    }
  }

  /** The value of a header line is the text between its first and second
      colons (or the end of the line), stripped of whitespace. So a value that
      itself holds a colon is cut short at it. */
  lemma HeaderValueBetweenColons(line: string, i: nat, j: nat)
    requires i < |line| && line[i] == ':' && ':' !in line[..i]
    requires i < j <= |line| && ':' !in line[i + 1..j] && (j == |line| || line[j] == ':')
    ensures HeaderValue(line) == Strip(line[i + 1..j])
  {
    SplitSecond(line, ':', i, j);
  }

  /** A line that starts with the marker: the value is the stripped rest of
      the line up to its next colon, if any. */
  lemma HeaderValueAfterMarker(v: string, w: string)
    requires ':' !in v
    ensures ':' in PoolHeader + v && HeaderValue(PoolHeader + v) == Strip(v)
    ensures ':' in PoolHeader + v + ":" + w && HeaderValue(PoolHeader + v + ":" + w) == Strip(v)
  {
    var name := "X-App-Pool";
    assert ':' !in name;
    assert PoolHeader + v == name + [':'] + v;
    assert PoolHeader + v + ":" + w == name + [':'] + (v + [':'] + w);
    SplitFirst(name, ':', v);
    SplitFirst(name, ':', v + [':'] + w);
    SplitNoSep(v, ':');
    SplitFirst(v, ':', w);
  }

  /** An empty response, which is what a `curl` that could not connect
      prints, yields no pool. */
  lemma EmptyResponseHasNoPool()
    ensures ExtractPool("") == None
  {
    NoPoolIffNoMarker("");
  }

  /** An illustration of the colon quirk that `HeaderValueAfterMarker` states
      for all lines: a value that holds a colon is cut short at it. */
  lemma HeaderValueStopsAtColon()
    ensures HeaderValue("X-App-Pool: blue:8080") == "blue"
  {
    StripExample(" blue", 1, "blue");
    assert "X-App-Pool: blue:8080" == PoolHeader + " blue" + ":" + "8080";
    HeaderValueAfterMarker(" blue", "8080");
  }

  /** `Strip` on a text made of whitespace around a word with no whitespace. */
  lemma StripExample(s: string, a: nat, word: string)
    requires a + |word| <= |s| && s[a..a + |word|] == word
    requires forall k :: 0 <= k < |word| ==> !IsSpace(word[k])
    requires forall k :: 0 <= k < |s| && (k < a || a + |word| <= k) ==> IsSpace(s[k])
    requires word != []
    ensures Strip(s) == word
  {
    StripUnique(s, a, word);
  }
}
