/**
  The fixture refresher: a single scan over the lines of the Elm test file
  that finds four-line fixture blocks (URL line, `"""`, data line, `"""`),
  fetches each URL and swaps the data line for the escaped fresh body.
  The file is read as a sequence of lines and "written" by returning the
  new sequence; an aborted run returns no lines at all.
 */
module Refresh {
  import opened Wrappers
  import opened Escaping
  import opened ApiKey
  import opened Fetching

  /** A line as the file reader hands it out before end of file: never empty. */
  type Line = s: string | s != [] witness "\n"

  /** Sixteen spaces: the indentation of every fixture line. */
  const Indent: string := "                "
  const UrlPrefix: string := Indent + "\"http"
  const Delimiter: string := Indent + "\"\"\"\n"

  /** The next line at position `i`, or the empty string at end of file. */
  function ReadLine(lines: seq<Line>, i: nat): (line: string)
    ensures line == [] <==> i >= |lines|
  {
    if i < |lines| then lines[i] else []
  }

  /** A fixture URL line: the sixteen-space indent, then a quote that opens a URL starting with `http`. */
  predicate IsUrlLine(line: string)
    ensures IsUrlLine(line) ==> 21 <= |line| && line[..16] == Indent && line[16] == '"' && line[17..21] == "http"
  {
    UrlPrefix <= line
  }

  /** The URL of a URL line: its first 17 characters and its last 2 dropped. */
  function UrlOf(line: string): (url: string)
    requires IsUrlLine(line)
    ensures |url| + 19 == |line|
    ensures line == line[..17] + url + line[|line| - 2..]
  {
    line[17..|line| - 2]
  }

  /** The URL line that quotes `url` and ends the line. */
  function QuotedUrlLine(url: string): string
  {
    Indent + "\"" + url + "\"\n"
  }

  /** A quoted URL that starts with `http` is recognised, and reads back as itself. */
  lemma UrlOfQuotedUrlLine(url: string)
    ensures IsUrlLine(QuotedUrlLine(url)) <==> "http" <= url
    ensures "http" <= url ==> UrlOf(QuotedUrlLine(url)) == url
  {
    var line := QuotedUrlLine(url);
    assert line[..16] == Indent;
    assert line[16] == '"';
    assert line[17..|line| - 2] == url;
    if "http" <= url {
      assert line[..21] == UrlPrefix;
    }
    if IsUrlLine(line) {
      assert line[..21] == UrlPrefix;
      assert line[|line| - 2] == '"';
      assert forall j :: 16 < j < 21 ==> line[j] == UrlPrefix[j] != '"';
      assert url[..4] == line[17..21];
    }
  }

  /** A URL line whose URL is closed by a quote and a newline is the quoted form of its URL. */
  lemma QuotedUrlLineOfUrl(line: string)
    requires IsUrlLine(line)
    requires line[|line| - 2..] == "\"\n"
    ensures QuotedUrlLine(UrlOf(line)) == line
  {
    assert line[..17] == Indent + "\"" by {
      assert line[..17] == UrlPrefix[..17];
    }
  }

  /** The data line written for a freshly fetched body. */
  function RenderData(body: string): (line: Line)
    ensures && 17 <= |line|
            && Unescape(line[16..|line| - 1]) == Some(body)
            && line[..16] == Indent && line[|line| - 1] == '\n'
  {
    var line := Indent + Escape(body) + "\n";
    assert line[16..|line| - 1] == Escape(body);
    UnescapeEscape(body);
    line
  }

  /**
    The data line that follows a fetch: the rendered body when the fetch
    produced a non-empty body, the old data line otherwise.
   */
  function NewDataLine(oldData: Line, outcome: Outcome): (line: Line)
    ensures outcome.Fetched? && outcome.body != [] ==>
              && 17 <= |line| && line[..16] == Indent && line[|line| - 1] == '\n'
              && Unescape(line[16..|line| - 1]) == Some(outcome.body)
    ensures !(outcome.Fetched? && outcome.body != []) ==> line == oldData
  {
    if outcome.Fetched? && outcome.body != [] then RenderData(outcome.body) else oldData
  }

  /** Swapping in the same outcome a second time leaves the data line as it is. */
  lemma NewDataLineIdempotent(oldData: Line, outcome: Outcome)
    ensures NewDataLine(NewDataLine(oldData, outcome), outcome) == NewDataLine(oldData, outcome)
  {
  }

  /** Why a run stopped without writing: a delimiter line at this position was wrong, or a fetch failed. */
  datatype Failure = BadDelimiter(index: nat) | FetchFailed(url: string)

  /** The end of a run: the whole new file, or an abort with nothing written. */
  datatype RunResult = Written(lines: seq<Line>) | Aborted(failure: Failure)

  function Prepend(head: seq<Line>, rest: RunResult): RunResult
  {
    match rest
    case Written(tail) => Written(head + tail)
    case Aborted(_) => rest
  }

  lemma PrependPrepend(a: seq<Line>, b: seq<Line>, rest: RunResult)
    ensures Prepend(a, Prepend(b, rest)) == Prepend(a + b, rest)
  {
    if rest.Written? {
      assert a + (b + rest.lines) == (a + b) + rest.lines;
    }
  }

  /** The scan from line `i` on, with `fetch` answering every URL found. */
  function RefreshFrom(lines: seq<Line>, i: nat, fetch: string -> Outcome): (r: RunResult)
    decreases |lines| - i
    ensures i <= |lines| && r.Written? ==> |r.lines| == |lines| - i
  {
    if i >= |lines| then Written([])
    else
      var line := lines[i];
      if !IsUrlLine(line) then Prepend([line], RefreshFrom(lines, i + 1, fetch))
      else
        var url := UrlOf(line);
        var outcome := fetch(url);
        if outcome.Error? then Aborted(FetchFailed(url))
        else if ReadLine(lines, i + 1) != Delimiter then Aborted(BadDelimiter(i + 1))
        else if ReadLine(lines, i + 3) != Delimiter then Aborted(BadDelimiter(i + 3))
        else
          var block := [line, lines[i + 1], NewDataLine(lines[i + 2], outcome), lines[i + 3]];
          Prepend(block, RefreshFrom(lines, i + 4, fetch))
  }

  /** The scan over the whole file. */
  function RefreshAll(lines: seq<Line>, fetch: string -> Outcome): RunResult
  {
    RefreshFrom(lines, 0, fetch)
  }

  /**
    The whole script: every URL is fetched over `network` with `apiKey` added.
    A written file has the input's length and differs from it at data lines only.
   */
  function UpdateDecodeTest(lines: seq<Line>, apiKey: Option<string>, network: string -> Response): (r: RunResult)
    ensures r.Written? ==>
              && |r.lines| == |lines| == |Layout(lines, 0)|
              && forall k :: 0 <= k < |lines| && !Layout(lines, 0)[k].Data? ==> r.lines[k] == lines[k]
  {
    var fetch := url => Fetch(network, apiKey, url);
    RefreshOutput(lines, fetch);
    RefreshAll(lines, fetch)
  }

  // ---------------------------------------------------------------------------
  // The layout of a file: which part each line plays, independently of any fetch.

  datatype Role = Plain | Url(url: string) | Opening | Data(url: string) | Closing

  /**
    The part each line from `i` on plays in the scan. A block always gets all
    four roles, so a block cut short by the end of the file shows up as more
    roles than lines.
   */
  function Layout(lines: seq<Line>, i: nat): (roles: seq<Role>)
    decreases |lines| - i
    ensures i >= |lines| ==> roles == []
    ensures i <= |lines| ==> |lines| - i <= |roles| <= |lines| - i + 3
    ensures forall k :: 0 <= k < |roles| && i + k >= |lines| ==>
              roles[k].Opening? || roles[k].Data? || roles[k].Closing?
  {
    if i >= |lines| then []
    else if IsUrlLine(lines[i]) then
      var url := UrlOf(lines[i]);
      [Url(url), Opening, Data(url), Closing] + Layout(lines, i + 4)
    else [Plain] + Layout(lines, i + 1)
  }

  /** A role agrees with the line it is given to. */
  predicate RoleFits(line: Line, role: Role)
  {
    match role
    case Plain => !IsUrlLine(line)
    case Url(u) => IsUrlLine(line) && u == UrlOf(line)
    case _ => true
  }

  /** Roles come in whole blocks: URL, opening delimiter, data for that URL, closing delimiter. */
  predicate InBlock(roles: seq<Role>, k: nat)
    requires k < |roles|
  {
    match roles[k]
    case Plain => true
    case Url(u) => k + 3 < |roles| && roles[k + 1] == Opening && roles[k + 2] == Data(u) && roles[k + 3] == Closing
    case Opening => 1 <= k && roles[k - 1].Url?
    case Data(u) => 2 <= k && roles[k - 2] == Url(u)
    case Closing => 3 <= k && roles[k - 3].Url?
  }

  /** The roles of a scan position: one plain line, or a whole block. */
  function HeadRoles(lines: seq<Line>, i: nat): (head: seq<Role>)
    requires i < |lines|
  {
    if IsUrlLine(lines[i]) then
      var url := UrlOf(lines[i]);
      [Url(url), Opening, Data(url), Closing]
    else [Plain]
  }

  lemma LayoutStep(lines: seq<Line>, i: nat)
    requires i < |lines|
    ensures Layout(lines, i) == HeadRoles(lines, i) + Layout(lines, i + |HeadRoles(lines, i)|)
  {
  }

  /** `roles` agree with the lines from `i` on that they are given to. */
  predicate RolesFit(lines: seq<Line>, i: nat, roles: seq<Role>)
  {
    forall k :: 0 <= k < |roles| && i + k < |lines| ==> RoleFits(lines[i + k], roles[k])
  }

  lemma HeadFits(lines: seq<Line>, i: nat)
    requires i < |lines|
    ensures RolesFit(lines, i, HeadRoles(lines, i))
  {
    var head := HeadRoles(lines, i);
    forall k | 0 <= k < |head| && i + k < |lines|
      ensures RoleFits(lines[i + k], head[k])
    {
      if k == 0 {
        assert lines[i + k] == lines[i];
      }
    }
  }

  lemma FitsAppend(lines: seq<Line>, i: nat, head: seq<Role>, tail: seq<Role>)
    requires RolesFit(lines, i, head)
    requires RolesFit(lines, i + |head|, tail)
    ensures RolesFit(lines, i, head + tail)
  {
    var roles := head + tail;
    forall k | 0 <= k < |roles| && i + k < |lines|
      ensures RoleFits(lines[i + k], roles[k])
    {
      if k >= |head| {
        assert roles[k] == tail[k - |head|];
        assert lines[i + k] == lines[(i + |head|) + (k - |head|)];
      }
    }
  }

  /** Every role the layout gives to an actual line agrees with that line. */
  lemma {:induction false} LayoutFits(lines: seq<Line>, i: nat)
    ensures var roles := Layout(lines, i);
            forall k :: 0 <= k < |roles| && i + k < |lines| ==> RoleFits(lines[i + k], roles[k])
    decreases |lines| - i
  {
    if i < |lines| {
      var head := HeadRoles(lines, i);
      var tail := Layout(lines, i + |head|);
      LayoutStep(lines, i);
      LayoutFits(lines, i + |head|);
      assert RolesFit(lines, i + |head|, tail);
      HeadFits(lines, i);
      FitsAppend(lines, i, head, tail);
      assert RolesFit(lines, i, Layout(lines, i));
    }
  }

  lemma ShiftInBlock(head: seq<Role>, tail: seq<Role>, k: nat)
    requires forall j :: 0 <= j < |head| ==> InBlock(head, j)
    requires k < |tail| && InBlock(tail, k)
    ensures InBlock(head + tail, |head| + k)
  {
    var roles := head + tail;
    var d := |head|;
    assert forall j :: 0 <= j < |tail| ==> roles[d + j] == tail[j];
  }

  lemma ExtendInBlock(head: seq<Role>, tail: seq<Role>, k: nat)
    requires k < |head| && InBlock(head, k)
    ensures InBlock(head + tail, k)
  {
  }

  lemma HeadInBlock(lines: seq<Line>, i: nat)
    requires i < |lines|
    ensures var head := HeadRoles(lines, i);
            forall j :: 0 <= j < |head| ==> InBlock(head, j)
  {
    var head := HeadRoles(lines, i);
    if IsUrlLine(lines[i]) {
      assert InBlock(head, 0) && InBlock(head, 1) && InBlock(head, 2) && InBlock(head, 3);
    }
  }

  /** Joining two runs of whole blocks gives a run of whole blocks. */
  lemma BlocksAppend(head: seq<Role>, tail: seq<Role>)
    requires forall j :: 0 <= j < |head| ==> InBlock(head, j)
    requires forall j :: 0 <= j < |tail| ==> InBlock(tail, j)
    ensures forall k :: 0 <= k < |head + tail| ==> InBlock(head + tail, k)
  {
    forall k | 0 <= k < |head + tail|
      ensures InBlock(head + tail, k)
    {
      if k >= |head| {
        ShiftInBlock(head, tail, k - |head|);
      } else {
        ExtendInBlock(head, tail, k);
      }
    }
  }

  /** The layout is a run of whole blocks and plain lines. */
  lemma {:induction false} LayoutBlocks(lines: seq<Line>, i: nat)
    ensures var roles := Layout(lines, i);
            forall k :: 0 <= k < |roles| ==> InBlock(roles, k)
    decreases |lines| - i
  {
    if i < |lines| {
      var head := HeadRoles(lines, i);
      var tail := Layout(lines, i + |head|);
      LayoutStep(lines, i);
      LayoutBlocks(lines, i + |head|);
      HeadInBlock(lines, i);
      BlocksAppend(head, tail);
    }
  }

  /** What the refreshed file holds at a line with this role. */
  function RefreshedLine(line: Line, role: Role, fetch: string -> Outcome): Line
  {
    match role
    case Data(u) => NewDataLine(line, fetch(u))
    case _ => line
  }

  /** What a line with this role demands for the run to go through. */
  predicate RoleHolds(line: string, role: Role, fetch: string -> Outcome)
  {
    match role
    case Url(u) => !fetch(u).Error?
    case Opening => line == Delimiter
    case Closing => line == Delimiter
    case _ => true
  }

  /** Every line from `i` on meets what its role in `roles` demands. */
  predicate RolesHold(lines: seq<Line>, i: nat, roles: seq<Role>, fetch: string -> Outcome)
  {
    forall k :: 0 <= k < |roles| ==> RoleHolds(ReadLine(lines, i + k), roles[k], fetch)
  }

  /** Every block from `i` on is complete, delimited exactly, and fetches without error. */
  predicate FixturesIntactFrom(lines: seq<Line>, i: nat, fetch: string -> Outcome)
  {
    var roles := Layout(lines, i);
    i + |roles| == |lines| && RolesHold(lines, i, roles, fetch)
  }

  lemma RolesHoldAppend(lines: seq<Line>, i: nat, ra: seq<Role>, rb: seq<Role>, fetch: string -> Outcome)
    ensures RolesHold(lines, i, ra + rb, fetch) <==> RolesHold(lines, i, ra, fetch) && RolesHold(lines, i + |ra|, rb, fetch)
  {
    var roles := ra + rb;
    if RolesHold(lines, i, roles, fetch) {
      forall k | 0 <= k < |rb|
        ensures RoleHolds(ReadLine(lines, (i + |ra|) + k), rb[k], fetch)
      {
        assert roles[|ra| + k] == rb[k];
        assert RoleHolds(ReadLine(lines, i + (|ra| + k)), roles[|ra| + k], fetch);
      }
      forall k | 0 <= k < |ra|
        ensures RoleHolds(ReadLine(lines, i + k), ra[k], fetch)
      {
        assert roles[k] == ra[k];
      }
    }
    if RolesHold(lines, i, ra, fetch) && RolesHold(lines, i + |ra|, rb, fetch) {
      forall k | 0 <= k < |roles|
        ensures RoleHolds(ReadLine(lines, i + k), roles[k], fetch)
      {
        if k >= |ra| {
          assert roles[k] == rb[k - |ra|];
          assert RoleHolds(ReadLine(lines, (i + |ra|) + (k - |ra|)), rb[k - |ra|], fetch);
        } else {
          assert roles[k] == ra[k];
        }
      }
    }
  }

  lemma PlainWritten(lines: seq<Line>, i: nat, fetch: string -> Outcome)
    requires i < |lines| && !IsUrlLine(lines[i])
    ensures RefreshFrom(lines, i, fetch).Written?
            <==> RolesHold(lines, i, HeadRoles(lines, i), fetch) && i + 1 <= |lines| && RefreshFrom(lines, i + 1, fetch).Written?
  {
    assert HeadRoles(lines, i) == [Plain];
  }

  /** The layout is intact from `i` exactly when the first plain line or block holds and the layout after it is intact. */
  lemma IntactStep(lines: seq<Line>, i: nat, fetch: string -> Outcome)
    requires i < |lines|
    ensures var d := |HeadRoles(lines, i)|;
            FixturesIntactFrom(lines, i, fetch)
            <==> RolesHold(lines, i, HeadRoles(lines, i), fetch) && i + d <= |lines| && FixturesIntactFrom(lines, i + d, fetch)
  {
    var head := HeadRoles(lines, i);
    var d := |head|;
    LayoutStep(lines, i);
    RolesHoldAppend(lines, i, head, Layout(lines, i + d), fetch);
  }

  lemma BlockRolesHold(lines: seq<Line>, i: nat, fetch: string -> Outcome)
    requires i < |lines| && IsUrlLine(lines[i])
    ensures RolesHold(lines, i, HeadRoles(lines, i), fetch)
            <==> !fetch(UrlOf(lines[i])).Error? && ReadLine(lines, i + 1) == Delimiter && ReadLine(lines, i + 3) == Delimiter
  {
    var url := UrlOf(lines[i]);
    assert HeadRoles(lines, i) == [Url(url), Opening, Data(url), Closing];
    FourRolesHold(lines, i, url, fetch);
  }

  /** A block's roles hold exactly when its fetch does not fail and both delimiters are exact. */
  lemma FourRolesHold(lines: seq<Line>, i: nat, url: string, fetch: string -> Outcome)
    ensures RolesHold(lines, i, [Url(url), Opening, Data(url), Closing], fetch)
            <==> !fetch(url).Error? && ReadLine(lines, i + 1) == Delimiter && ReadLine(lines, i + 3) == Delimiter
  {
    var head := [Url(url), Opening, Data(url), Closing];
    if !fetch(url).Error? && ReadLine(lines, i + 1) == Delimiter && ReadLine(lines, i + 3) == Delimiter {
      forall k | 0 <= k < |head|
        ensures RoleHolds(ReadLine(lines, i + k), head[k], fetch)
      {
      }
    } else if fetch(url).Error? {
      assert !RoleHolds(ReadLine(lines, i + 0), head[0], fetch);
    } else if ReadLine(lines, i + 1) != Delimiter {
      assert !RoleHolds(ReadLine(lines, i + 1), head[1], fetch);
    } else {
      assert !RoleHolds(ReadLine(lines, i + 3), head[3], fetch);
    }
  }

  lemma BlockWritten(lines: seq<Line>, i: nat, fetch: string -> Outcome)
    requires i < |lines| && IsUrlLine(lines[i])
    ensures RefreshFrom(lines, i, fetch).Written?
            <==> RolesHold(lines, i, HeadRoles(lines, i), fetch) && i + 4 <= |lines| && RefreshFrom(lines, i + 4, fetch).Written?
  {
    BlockRolesHold(lines, i, fetch);
  }

  /** The conclusion of `RefreshFromSucceedsIff` at position `i`. */
  predicate SucceedsExactly(lines: seq<Line>, i: nat, fetch: string -> Outcome)
  {
    RefreshFrom(lines, i, fetch).Written? <==> FixturesIntactFrom(lines, i, fetch)
  }

  lemma PlainSucceeds(lines: seq<Line>, i: nat, fetch: string -> Outcome)
    requires i < |lines| && !IsUrlLine(lines[i])
    requires SucceedsExactly(lines, i + 1, fetch)
    ensures SucceedsExactly(lines, i, fetch)
  {
    IntactStep(lines, i, fetch);
    PlainWritten(lines, i, fetch);
  }

  lemma BlockSucceeds(lines: seq<Line>, i: nat, fetch: string -> Outcome)
    requires i < |lines| && IsUrlLine(lines[i])
    requires i + 4 <= |lines| ==> SucceedsExactly(lines, i + 4, fetch)
    ensures SucceedsExactly(lines, i, fetch)
  {
    IntactStep(lines, i, fetch);
    BlockWritten(lines, i, fetch);
  }

  lemma {:induction false} RefreshFromSucceedsIff(lines: seq<Line>, i: nat, fetch: string -> Outcome)
    requires i <= |lines|
    ensures SucceedsExactly(lines, i, fetch)
    decreases |lines| - i
  {
    if i < |lines| {
      if IsUrlLine(lines[i]) {
        if i + 4 <= |lines| {
          RefreshFromSucceedsIff(lines, i + 4, fetch);
        }
        BlockSucceeds(lines, i, fetch);
      } else {
        RefreshFromSucceedsIff(lines, i + 1, fetch);
        PlainSucceeds(lines, i, fetch);
      }
    }
  }

  lemma PlainStep(lines: seq<Line>, i: nat, fetch: string -> Outcome)
    requires i < |lines| && !IsUrlLine(lines[i])
    requires RefreshFrom(lines, i, fetch).Written?
    ensures RefreshFrom(lines, i + 1, fetch).Written?
    ensures RefreshFrom(lines, i, fetch).lines == [lines[i]] + RefreshFrom(lines, i + 1, fetch).lines
  {
  }

  lemma BlockStep(lines: seq<Line>, i: nat, fetch: string -> Outcome)
    requires i < |lines| && IsUrlLine(lines[i])
    requires RefreshFrom(lines, i, fetch).Written?
    ensures i + 4 <= |lines|
    ensures RefreshFrom(lines, i + 4, fetch).Written?
    ensures RefreshFrom(lines, i, fetch).lines
            == [lines[i], lines[i + 1], NewDataLine(lines[i + 2], fetch(UrlOf(lines[i]))), lines[i + 3]]
               + RefreshFrom(lines, i + 4, fetch).lines
  {
    assert ReadLine(lines, i + 3) == Delimiter;
  }

  /** `out` is what the refresher writes for the lines from `i` on that carry `roles`. */
  predicate RefreshedFrom(out: seq<Line>, lines: seq<Line>, i: nat, roles: seq<Role>, fetch: string -> Outcome)
  {
    && |out| == |roles|
    && i + |roles| <= |lines|
    && forall k :: 0 <= k < |out| ==> out[k] == RefreshedLine(lines[i + k], roles[k], fetch)
  }

  lemma RefreshedFromAppend(out: seq<Line>, a: seq<Line>, b: seq<Line>, lines: seq<Line>, i: nat,
                             roles: seq<Role>, ra: seq<Role>, rb: seq<Role>, fetch: string -> Outcome)
    requires out == a + b && roles == ra + rb
    requires RefreshedFrom(a, lines, i, ra, fetch)
    requires RefreshedFrom(b, lines, i + |a|, rb, fetch)
    ensures RefreshedFrom(out, lines, i, roles, fetch)
  {
    forall k | 0 <= k < |out|
      ensures out[k] == RefreshedLine(lines[i + k], roles[k], fetch)
    {
      if k >= |a| {
        assert out[k] == b[k - |a|] && roles[k] == rb[k - |a|];
        assert lines[i + k] == lines[(i + |a|) + (k - |a|)];
      }
    }
  }

  lemma BlockRefreshed(lines: seq<Line>, i: nat, fetch: string -> Outcome)
    requires i + 4 <= |lines| && IsUrlLine(lines[i])
    ensures var url := UrlOf(lines[i]);
            RefreshedFrom([lines[i], lines[i + 1], NewDataLine(lines[i + 2], fetch(url)), lines[i + 3]],
                          lines, i, HeadRoles(lines, i), fetch)
  {
    var url := UrlOf(lines[i]);
    var out := [lines[i], lines[i + 1], NewDataLine(lines[i + 2], fetch(url)), lines[i + 3]];
    var head := HeadRoles(lines, i);
    assert head == [Url(url), Opening, Data(url), Closing];
    forall k | 0 <= k < |out|
      ensures out[k] == RefreshedLine(lines[i + k], head[k], fetch)
    {
      if k == 2 {
        assert head[k] == Data(url);
      } else {
        assert !head[k].Data? && out[k] == lines[i + k];
      }
    }
  }

  /** The conclusion of `RefreshFromOutput` at position `i`. */
  predicate OutputFits(lines: seq<Line>, i: nat, fetch: string -> Outcome)
    requires i <= |lines|
  {
    var res := RefreshFrom(lines, i, fetch);
    res.Written? ==> |res.lines| == |lines| - i && RefreshedFrom(res.lines, lines, i, Layout(lines, i), fetch)
  }

  lemma PlainOutput(lines: seq<Line>, i: nat, fetch: string -> Outcome)
    requires i < |lines| && !IsUrlLine(lines[i])
    requires OutputFits(lines, i + 1, fetch)
    ensures OutputFits(lines, i, fetch)
  {
    var res := RefreshFrom(lines, i, fetch);
    if res.Written? {
      PlainStep(lines, i, fetch);
      var head := HeadRoles(lines, i);
      assert head == [Plain];
      var headOut := [lines[i]];
      assert RefreshedFrom(headOut, lines, i, head, fetch);
      LayoutStep(lines, i);
      var rest := RefreshFrom(lines, i + 1, fetch).lines;
      RefreshedFromAppend(res.lines, headOut, rest, lines, i, Layout(lines, i), head, Layout(lines, i + 1), fetch);
    }
  }

  lemma BlockOutput(lines: seq<Line>, i: nat, fetch: string -> Outcome)
    requires i < |lines| && IsUrlLine(lines[i])
    requires i + 4 <= |lines| ==> OutputFits(lines, i + 4, fetch)
    ensures OutputFits(lines, i, fetch)
  {
    var res := RefreshFrom(lines, i, fetch);
    if res.Written? {
      BlockStep(lines, i, fetch);
      var head := HeadRoles(lines, i);
      var headOut := [lines[i], lines[i + 1], NewDataLine(lines[i + 2], fetch(UrlOf(lines[i]))), lines[i + 3]];
      BlockRefreshed(lines, i, fetch);
      LayoutStep(lines, i);
      var rest := RefreshFrom(lines, i + 4, fetch).lines;
      RefreshedFromAppend(res.lines, headOut, rest, lines, i, Layout(lines, i), head, Layout(lines, i + 4), fetch);
    }
  }

  lemma {:induction false} RefreshFromOutput(lines: seq<Line>, i: nat, fetch: string -> Outcome)
    requires i <= |lines|
    ensures OutputFits(lines, i, fetch)
    decreases |lines| - i
  {
    if i < |lines| {
      if IsUrlLine(lines[i]) {
        if i + 4 <= |lines| {
          RefreshFromOutput(lines, i + 4, fetch);
        }
        BlockOutput(lines, i, fetch);
      } else {
        RefreshFromOutput(lines, i + 1, fetch);
        PlainOutput(lines, i, fetch);
      }
    }
  }

  /** `failure` is accounted for by the lines from `i` on that carry `roles`. */
  predicate ExplainsAbort(lines: seq<Line>, i: nat, roles: seq<Role>, failure: Failure, fetch: string -> Outcome)
  {
    match failure
    case BadDelimiter(j) =>
      && i <= j < i + |roles|
      && (roles[j - i].Opening? || roles[j - i].Closing?)
      && ReadLine(lines, j) != Delimiter
    case FetchFailed(u) =>
      fetch(u).Error? && exists k :: 0 <= k < |roles| && roles[k] == Url(u)
  }

  lemma ExplainsAbortAppend(lines: seq<Line>, i: nat, ra: seq<Role>, rb: seq<Role>, failure: Failure, fetch: string -> Outcome)
    ensures ExplainsAbort(lines, i, ra, failure, fetch) ==> ExplainsAbort(lines, i, ra + rb, failure, fetch)
    ensures ExplainsAbort(lines, i + |ra|, rb, failure, fetch) ==> ExplainsAbort(lines, i, ra + rb, failure, fetch)
  {
    var roles := ra + rb;
    if ExplainsAbort(lines, i, ra, failure, fetch) {
      match failure
      case BadDelimiter(j) =>
        assert roles[j - i] == ra[j - i];
      case FetchFailed(u) =>
        var k :| 0 <= k < |ra| && ra[k] == Url(u);
        assert roles[k] == Url(u);
    }
    if ExplainsAbort(lines, i + |ra|, rb, failure, fetch) {
      match failure
      case BadDelimiter(j) =>
        assert roles[j - i] == rb[j - (i + |ra|)];
      case FetchFailed(u) =>
        var k :| 0 <= k < |rb| && rb[k] == Url(u);
        assert roles[|ra| + k] == Url(u);
    }
  }

  lemma BlockAborted(lines: seq<Line>, i: nat, fetch: string -> Outcome)
    requires i < |lines| && IsUrlLine(lines[i])
    requires RefreshFrom(lines, i, fetch).Aborted?
    ensures || ExplainsAbort(lines, i, HeadRoles(lines, i), RefreshFrom(lines, i, fetch).failure, fetch)
            || (i + 4 <= |lines| && RefreshFrom(lines, i, fetch) == RefreshFrom(lines, i + 4, fetch))
  {
    var url := UrlOf(lines[i]);
    var head := HeadRoles(lines, i);
    assert head == [Url(url), Opening, Data(url), Closing];
    var res := RefreshFrom(lines, i, fetch);
    if fetch(url).Error? {
      assert res == Aborted(FetchFailed(url));
      assert head[0] == Url(url);
    } else if ReadLine(lines, i + 1) != Delimiter {
      assert res == Aborted(BadDelimiter(i + 1));
      assert head[1] == Opening;
    } else if ReadLine(lines, i + 3) != Delimiter {
      assert res == Aborted(BadDelimiter(i + 3));
      assert head[3] == Closing;
    }
  }

  lemma {:induction false} RefreshFromAbortReason(lines: seq<Line>, i: nat, fetch: string -> Outcome)
    ensures var res := RefreshFrom(lines, i, fetch);
            res.Aborted? ==> ExplainsAbort(lines, i, Layout(lines, i), res.failure, fetch)
    decreases |lines| - i
  {
    var res := RefreshFrom(lines, i, fetch);
    if i < |lines| && res.Aborted? {
      var head := HeadRoles(lines, i);
      var d := |head|;
      LayoutStep(lines, i);
      ExplainsAbortAppend(lines, i, head, Layout(lines, i + d), res.failure, fetch);
      if IsUrlLine(lines[i]) {
        BlockAborted(lines, i, fetch);
        if !ExplainsAbort(lines, i, head, res.failure, fetch) {
          RefreshFromAbortReason(lines, i + d, fetch);
        }
      } else {
        assert res == RefreshFrom(lines, i + 1, fetch);
        RefreshFromAbortReason(lines, i + d, fetch);
      }
    }
  }

  /**
    A successful run writes exactly one line per line read, copies every
    line except the data lines verbatim, and puts at each data line the
    rendering of the fresh body, or the old data when the fetch gave nothing.
   */
  lemma RefreshOutput(lines: seq<Line>, fetch: string -> Outcome)
    ensures var res := RefreshAll(lines, fetch);
            var roles := Layout(lines, 0);
            res.Written? ==>
              && |res.lines| == |roles| == |lines|
              && forall k :: 0 <= k < |lines| ==> res.lines[k] == RefreshedLine(lines[k], roles[k], fetch)
  {
    RefreshFromOutput(lines, 0, fetch);
    var res := RefreshAll(lines, fetch);
    if res.Written? {
      assert OutputFits(lines, 0, fetch);
      assert RefreshedFrom(res.lines, lines, 0, Layout(lines, 0), fetch);
      forall k | 0 <= k < |lines|
        ensures res.lines[k] == RefreshedLine(lines[k], Layout(lines, 0)[k], fetch)
      {
        assert lines[0 + k] == lines[k];
      }
    }
  }

  /** The run writes the file exactly when every block is complete, both delimiters are exact and no fetch fails. */
  lemma RefreshSucceedsIff(lines: seq<Line>, fetch: string -> Outcome)
    ensures RefreshAll(lines, fetch).Written? <==> FixturesIntactFrom(lines, 0, fetch)
  {
    RefreshFromSucceedsIff(lines, 0, fetch);
    assert SucceedsExactly(lines, 0, fetch);
  }

  /** An abort names a delimiter position whose line is wrong or missing, or a URL of the file whose fetch failed. */
  lemma RefreshAbortReason(lines: seq<Line>, fetch: string -> Outcome)
    ensures var res := RefreshAll(lines, fetch);
            res.Aborted? ==> ExplainsAbort(lines, 0, Layout(lines, 0), res.failure, fetch)
  {
    RefreshFromAbortReason(lines, 0, fetch);
  }

  // ---------------------------------------------------------------------------
  // Running the refresher twice with the same answers changes nothing more.

  /** `a` and `b` agree on every line from `i` on whose role in `roles` is not a data line. */
  predicate SameOutsideData(a: seq<Line>, b: seq<Line>, i: nat, roles: seq<Role>)
  {
    forall k :: 0 <= k < |roles| && i + k < |a| && !roles[k].Data? ==> i + k < |b| && a[i + k] == b[i + k]
  }

  lemma SameOutsideDataTail(a: seq<Line>, b: seq<Line>, i: nat, head: seq<Role>, tail: seq<Role>)
    requires SameOutsideData(a, b, i, head + tail)
    ensures SameOutsideData(a, b, i + |head|, tail)
  {
    var roles := head + tail;
    forall k | 0 <= k < |tail| && (i + |head|) + k < |a| && !tail[k].Data?
      ensures (i + |head|) + k < |b| && a[(i + |head|) + k] == b[(i + |head|) + k]
    {
      assert roles[|head| + k] == tail[k];
      assert i + (|head| + k) == (i + |head|) + k;
    }
  }

  /** The layout never looks at data lines, so lines that differ only there have the same layout. */
  lemma {:induction false} LayoutIgnoresData(a: seq<Line>, b: seq<Line>, i: nat)
    requires |a| == |b|
    requires SameOutsideData(a, b, i, Layout(a, i))
    ensures Layout(a, i) == Layout(b, i)
    decreases |a| - i
  {
    if i < |a| {
      var head := HeadRoles(a, i);
      var tail := Layout(a, i + |head|);
      LayoutStep(a, i);
      SameFirstLine(a, b, i, head, tail);
      SameOutsideDataTail(a, b, i, head, tail);
      LayoutIgnoresData(a, b, i + |head|);
      SameLayoutStep(a, b, i);
    }
  }

  lemma SameLayoutStep(a: seq<Line>, b: seq<Line>, i: nat)
    requires i < |a| == |b|
    requires HeadRoles(b, i) == HeadRoles(a, i)
    requires Layout(a, i + |HeadRoles(a, i)|) == Layout(b, i + |HeadRoles(a, i)|)
    ensures Layout(a, i) == Layout(b, i)
  {
    LayoutStep(a, i);
    LayoutStep(b, i);
  }

  lemma SameFirstLine(a: seq<Line>, b: seq<Line>, i: nat, head: seq<Role>, tail: seq<Role>)
    requires i < |a| == |b|
    requires head == HeadRoles(a, i)
    requires SameOutsideData(a, b, i, head + tail)
    ensures HeadRoles(b, i) == head
  {
    assert (head + tail)[0] == head[0];
    assert a[i + 0] == b[i + 0];
  }

  /**
    Refreshing the list of lines a run wrote, against the same server
    answers, gives that list back unchanged.
   */
  lemma RefreshIdempotent(lines: seq<Line>, fetch: string -> Outcome)
    requires RefreshAll(lines, fetch).Written?
    ensures RefreshAll(RefreshAll(lines, fetch).lines, fetch) == RefreshAll(lines, fetch)
  {
    var out := RefreshAll(lines, fetch).lines;
    var roles := Layout(lines, 0);
    RefreshOutput(lines, fetch);
    assert SameOutsideData(lines, out, 0, roles);
    LayoutIgnoresData(lines, out, 0);
    RefreshSucceedsIff(lines, fetch);
    assert RolesHold(out, 0, roles, fetch) by {
      forall k | 0 <= k < |roles|
        ensures RoleHolds(ReadLine(out, 0 + k), roles[k], fetch)
      {
        assert RoleHolds(ReadLine(lines, 0 + k), roles[k], fetch);
        assert out[k] == RefreshedLine(lines[k], roles[k], fetch);
      }
    }
    RefreshSucceedsIff(out, fetch);
    RefreshOutput(out, fetch);
    var again := RefreshAll(out, fetch).lines;
    forall k | 0 <= k < |out|
      ensures again[k] == out[k]
    {
      assert again[k] == RefreshedLine(out[k], roles[k], fetch);
      if roles[k].Data? {
        NewDataLineIdempotent(lines[k], fetch(roles[k].url));
      }
    }
  }

  // ---------------------------------------------------------------------------
  // The loop of the script itself.

  /**
    The script's read loop: one line is read per step, copied to the output
    buffer, and a URL line pulls in its three block lines. The buffer becomes
    the file only when the end of the input is reached.
   */
  method RefreshFile(lines: seq<Line>, fetch: string -> Outcome) returns (r: RunResult)
    ensures r == RefreshAll(lines, fetch)
    ensures r.Written? ==> |r.lines| == |lines|
  {
    var newLines: seq<Line> := [];
    var i := 0;
    while true
      invariant i <= |lines|
      invariant RefreshAll(lines, fetch) == Prepend(newLines, RefreshFrom(lines, i, fetch))
      decreases |lines| - i
    {
      var line := ReadLine(lines, i);
      if line == [] {
        RefreshOutput(lines, fetch);
        return Written(newLines);
      }
      if !IsUrlLine(line) {
        PrependPrepend(newLines, [lines[i]], RefreshFrom(lines, i + 1, fetch));
        newLines := newLines + [lines[i]];
        i := i + 1;
      } else {
        var url := UrlOf(line);
        var newData := fetch(url);
        if newData.Error? {
          return Aborted(FetchFailed(url));
        }
        var quotes := ReadLine(lines, i + 1);
        if quotes != Delimiter {
          return Aborted(BadDelimiter(i + 1));
        }
        // The old data line is read before the closing delimiter is checked;
        // on a mismatch the buffer is dropped, so appending after the check
        // writes the same file.
        var oldData := ReadLine(lines, i + 2);
        quotes := ReadLine(lines, i + 3);
        if quotes != Delimiter {
          return Aborted(BadDelimiter(i + 3));
        }
        assert oldData == lines[i + 2];
        var block := [lines[i], lines[i + 1], NewDataLine(oldData, newData), lines[i + 3]];
        PrependPrepend(newLines, block, RefreshFrom(lines, i + 4, fetch));
        newLines := newLines + block;
        i := i + 4;
      }
    }
  }

  // ---------------------------------------------------------------------------
  // The script as run against a server.

  /** A fixture whose URL answers 404 keeps its old data line byte for byte. */
  lemma UpdateKeepsDataOnNotFound(lines: seq<Line>, apiKey: Option<string>, network: string -> Response, k: nat)
    requires k < |lines| && k < |Layout(lines, 0)| && Layout(lines, 0)[k].Data?
    requires network(AddApiKey(apiKey, Layout(lines, 0)[k].url)) == HttpError(NotFoundStatus)
    ensures var res := UpdateDecodeTest(lines, apiKey, network);
            res.Written? ==> k < |res.lines| && res.lines[k] == lines[k]
  {
    RefreshOutput(lines, url => Fetch(network, apiKey, url));
  }

  /** A fixture whose URL answers with a non-empty body gets that body, escaped, as its data line. */
  lemma UpdateWritesFetchedBody(lines: seq<Line>, apiKey: Option<string>, network: string -> Response, k: nat, body: string)
    requires k < |lines| && k < |Layout(lines, 0)| && Layout(lines, 0)[k].Data?
    requires network(AddApiKey(apiKey, Layout(lines, 0)[k].url)) == Body(body) && body != []
    ensures var res := UpdateDecodeTest(lines, apiKey, network);
            res.Written? ==> k < |res.lines| && res.lines[k] == Indent + Escape(body) + "\n"
  {
    RefreshOutput(lines, url => Fetch(network, apiKey, url));
  }

  /** A fixture URL that answers with any failure other than 404 stops the run before anything is written. */
  lemma UpdateAbortsOnServerError(lines: seq<Line>, apiKey: Option<string>, network: string -> Response, k: nat)
    requires k < |lines| && k < |Layout(lines, 0)| && Layout(lines, 0)[k].Url?
    requires var answer := network(AddApiKey(apiKey, Layout(lines, 0)[k].url));
             answer.ConnectionFailure? || (answer.HttpError? && answer.code != NotFoundStatus)
    ensures UpdateDecodeTest(lines, apiKey, network).Aborted?
  {
    var fetch := url => Fetch(network, apiKey, url);
    RefreshSucceedsIff(lines, fetch);
    assert !RoleHolds(ReadLine(lines, 0 + k), Layout(lines, 0)[k], fetch);
  }

  /**
    A file that is a single fixture block, run without a key against a server
    that answers its URL with a non-empty body: the block comes back with the
    escaped body as its data line.
   */
  lemma SingleBlock(url: string, oldData: Line, network: string -> Response, body: string)
    requires "http" <= url
    requires network(url) == Body(body) && body != []
    ensures var urlLine := QuotedUrlLine(url);
            UpdateDecodeTest([urlLine, Delimiter, oldData, Delimiter], None, network)
            == Written([urlLine, Delimiter, Indent + Escape(body) + "\n", Delimiter])
  {
    var urlLine := QuotedUrlLine(url);
    var fetch := (u: string) => Fetch(network, None, u);
    var lines: seq<Line> := [urlLine, Delimiter, oldData, Delimiter];
    UrlOfQuotedUrlLine(url);
    assert IsUrlLine(lines[0]) && UrlOf(lines[0]) == url;
    assert fetch(url) == Fetched(body);
    assert ReadLine(lines, 1) == Delimiter && ReadLine(lines, 3) == Delimiter;
    var block: seq<Line> := [urlLine, Delimiter, Indent + Escape(body) + "\n", Delimiter];
    assert RefreshFrom(lines, 4, fetch) == Written([]);
    assert RefreshFrom(lines, 0, fetch) == Prepend(block, Written([]));
  }
}
