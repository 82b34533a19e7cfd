/** Rewriting the time zone inside environment blocks of a prompt
    (crates/relay-core/src/request_timezone.rs). */
module EnvironmentRewriter {
  import opened Basics

  /** The markers of a block and of the zone inside it. */
  datatype Tags = Tags(open: string, close: string, zoneOpen: string, zoneClose: string)

  const ENVIRONMENT := Tags("<environment_context>", "</environment_context>", "<timezone>", "</timezone>")

  /** A marker starts with its only `<` and ends with its only `>`. */
  predicate IsTag(t: string) {
    && |t| >= 2
    && (forall i :: 0 <= i < |t| ==> (t[i] == '<' <==> i == 0))
    && (forall i :: 0 <= i < |t| ==> (t[i] == '>' <==> i == |t| - 1))
  }

  ghost predicate AreTags(t: Tags) {
    IsTag(t.open) && IsTag(t.close) && IsTag(t.zoneOpen) && IsTag(t.zoneClose)
  }

  predicate NotEmpty(t: Tags) {
    t.open != [] && t.zoneOpen != [] && t.zoneClose != []
  }

  lemma {:induction false} CloseIsTag()
    ensures IsTag("</environment_context>")
  {
  }

  lemma {:induction false} EnvironmentTags()
    ensures AreTags(ENVIRONMENT) && NotEmpty(ENVIRONMENT)
  {
    CloseIsTag();
  }

  predicate OccursAt(s: string, tag: string, i: int) {
    0 <= i && i + |tag| <= |s| && s[i..i + |tag|] == tag
  }

  lemma {:induction false} OccursInTail(s: string, tag: string, k: nat, i: int)
    requires k <= |s| && i >= k
    ensures OccursAt(s, tag, i) <==> OccursAt(s[k..], tag, i - k)
  {
    if i + |tag| <= |s| {
      assert s[i..i + |tag|] == s[k..][i - k..i - k + |tag|];
    }
  }

  function FindFrom(s: string, tag: string, from: nat): (r: Option<nat>)
    ensures r.Some? ==>
      from <= r.value && OccursAt(s, tag, r.value) && forall j :: from <= j < r.value ==> !OccursAt(s, tag, j)
    ensures r.None? ==> forall j :: from <= j ==> !OccursAt(s, tag, j)
    decreases |s| - from
  {
    if |s| < from + |tag| then None
    else if OccursAt(s, tag, from) then Some(from)
    else FindFrom(s, tag, from + 1)
  }

  /** Rust's `str::find`: the first occurrence. */
  function Find(s: string, tag: string): (r: Option<nat>)
    ensures r.Some? ==> OccursAt(s, tag, r.value) && forall j :: j < r.value ==> !OccursAt(s, tag, j)
    ensures r.None? ==> forall j :: !OccursAt(s, tag, j)
  {
    FindFrom(s, tag, 0)
  }

  /** Rust's `str::matches(..).count()`: occurrences that do not overlap. */
  function CountMatches(s: string, tag: string): nat
    requires tag != []
    decreases |s|
  {
    match Find(s, tag)
    case None => 0
    case Some(i) => 1 + CountMatches(s[i + |tag|..], tag)
  }

  /** The zone body of an unambiguous block: from the end of its only opening tag to its only closing tag. */
  function ZoneOf(t: Tags, block: string): (r: Option<(nat, nat)>)
    requires NotEmpty(t)
    ensures r.Some? ==> r.value.0 <= r.value.1 <= |block|
  {
    if Find(block, t.open).Some? || CountMatches(block, t.zoneOpen) != 1 || CountMatches(block, t.zoneClose) != 1
    then None
    else
      var a, b := Find(block, t.zoneOpen).value + |t.zoneOpen|, Find(block, t.zoneClose).value;
      if a <= b && '<' !in block[a..b] then Some((a, b)) else None
  }

  /** The next block: where its content starts and ends. */
  function NextBlock(t: Tags, s: string): (r: Option<(nat, nat)>)
    ensures r.Some? ==> |t.open| <= r.value.0 <= r.value.1 && r.value.1 + |t.close| <= |s|
  {
    match Find(s, t.open)
    case None => None
    case Some(start) =>
      var content := start + |t.open|;
      match Find(s[content..], t.close)
      case None => None
      case Some(offset) => Some((content, content + offset))
  }

  function RewriteBlock(t: Tags, block: string, timezone: string): string
    requires NotEmpty(t)
  {
    match ZoneOf(t, block)
    case None => block
    case Some((a, b)) => block[..a] + timezone + block[b..]
  }

  /** A text as a list of blocks: what precedes the content of each, the content, and the rest. */
  datatype Document = Rest(text: string) | Block(head: string, body: string, next: Document)

  function Parse(t: Tags, s: string): Document
    requires NotEmpty(t)
    decreases |s|
  {
    match NextBlock(t, s)
    case None => Rest(s)
    case Some((content, end)) => Block(s[..content], s[content..end], Parse(t, s[end + |t.close|..]))
  }

  function Unparse(t: Tags, d: Document): string {
    match d
    case Rest(text) => text
    case Block(head, body, next) => head + (body + (t.close + Unparse(t, next)))
  }

  function RewriteZones(t: Tags, d: Document, timezone: string): Document
    requires NotEmpty(t)
  {
    match d
    case Rest(_) => d
    case Block(head, body, next) => Block(head, RewriteBlock(t, body, timezone), RewriteZones(t, next, timezone))
  }

  function Rewrite(t: Tags, s: string, timezone: string): string
    requires NotEmpty(t)
  {
    Unparse(t, RewriteZones(t, Parse(t, s), timezone))
  }

  lemma {:induction false} ParseNext(t: Tags, s: string, content: nat, end: nat, body: string, tail: string)
    requires NotEmpty(t) && NextBlock(t, s) == Some((content, end))
    requires body == s[content..end] && tail == s[end + |t.close|..]
    ensures Parse(t, s) == Block(s[..content], body, Parse(t, tail))
  {
  }

  lemma {:induction false} RewriteNext(t: Tags, s: string, timezone: string, content: nat, end: nat, body: string,
                                       tail: string)
    requires NotEmpty(t) && NextBlock(t, s) == Some((content, end))
    requires body == s[content..end] && tail == s[end + |t.close|..]
    ensures Rewrite(t, s, timezone)
      == s[..content] + (RewriteBlock(t, body, timezone) + (t.close + Rewrite(t, tail, timezone)))
  {
    ParseNext(t, s, content, end, body, tail);
  }

  // ----- The code edits the text it scans

  lemma {:induction false} SliceOfSlice(s: string, a: nat, b: nat, c: nat, d: nat)
    requires a <= b <= |s| && c <= d <= b - a
    ensures s[a..b][c..d] == s[a + c..a + d]
  {
    forall i | 0 <= i < d - c ensures s[a..b][c..d][i] == s[a + c..a + d][i] {
      assert s[a..b][c..d][i] == s[a..b][c + i];
    }
  }

  /** A block of the unread text, in coordinates of the whole text. */
  lemma {:induction false} RestSlices(text: string, cursor: nat, content: nat, end: nat, next: nat)
    requires cursor <= content <= end <= next <= |text|
    ensures text[cursor..][content - cursor..end - cursor] == text[content..end]
    ensures text[cursor..][next - cursor..] == text[next..]
    ensures text[..cursor] + text[cursor..][..content - cursor] == text[..content]
  {
    SliceOfSlice(text, cursor, |text|, content - cursor, end - cursor);
    assert text[cursor..|text|] == text[cursor..];
  }

  /** Replacing a zone of the text replaces it in its block. */
  lemma {:induction false} ReplaceInside(text: string, content: nat, a: nat, b: nat, end: nat, z: string)
    requires content <= a <= b <= end <= |text|
    ensures var block := text[content..end];
      text[..a] + z + text[b..] == text[..content] + (block[..a - content] + z + block[b - content..]) + text[end..]
  {
    var block := text[content..end];
    assert text[..a] == text[..content] + block[..a - content];
    assert text[b..] == block[b - content..] + text[end..];
  }

  /** Cutting an edited text behind its block leaves the old tail. */
  lemma {:induction false} CutBehind(text: string, content: nat, edited: string, end: nat, close: string)
    requires content <= end && end + |close| <= |text| && text[end..end + |close|] == close
    ensures var after, cursor := text[..content] + edited + text[end..], content + |edited| + |close|;
      cursor <= |after| && after[..cursor] == text[..content] + (edited + close)
        && after[cursor..] == text[end + |close|..]
  {
    assert text[end..] == close + text[end + |close|..];
  }

  /** Replacing the zone of a block in the text is rewriting the block. */
  lemma {:induction false} EditedBlock(t: Tags, text: string, content: nat, a: nat, b: nat, end: nat, z: string)
    requires NotEmpty(t) && content <= a <= b <= end && end + |t.close| <= |text|
      && text[end..end + |t.close|] == t.close
    requires ZoneOf(t, text[content..end]) == Some((a - content, b - content))
    ensures var after, cursor := text[..a] + z + text[b..], end - (b - a) + |z| + |t.close|;
      cursor <= |after| && after[cursor..] == text[end + |t.close|..]
      && after[..cursor] == text[..content] + (RewriteBlock(t, text[content..end], z) + t.close)
  {
    var block := text[content..end];
    var edited := RewriteBlock(t, block, z);
    assert edited == block[..a - content] + z + block[b - content..];
    ReplaceInside(text, content, a, b, end, z);
    CutBehind(text, content, edited, end, t.close);
  }

  /** The zone of the block between `start` and `end`, in positions of the text. */
  method FindZone(t: Tags, text: string, start: nat, end: nat) returns (found: bool, zoneStart: nat, zoneEnd: nat)
    requires NotEmpty(t) && start <= end <= |text|
    ensures found ==> start <= zoneStart <= zoneEnd <= end
    ensures ZoneOf(t, text[start..end]) == if found then Some((zoneStart - start, zoneEnd - start)) else None
  {
    var block := text[start..end];
    // A block is edited only if it holds one zone and no other block opens in it.
    var valid := Find(block, t.open).None? && CountMatches(block, t.zoneOpen) == 1
      && CountMatches(block, t.zoneClose) == 1;
    if valid {
      var a, b := Find(block, t.zoneOpen).value + |t.zoneOpen|, Find(block, t.zoneClose).value;
      if a <= b {
        SliceOfSlice(text, start, end, a, b);
        if '<' !in text[start + a..start + b] {
          return true, start + a, start + b;
        }
      }
    }
    return false, 0, 0;
  }

  lemma {:induction false} Assemble(text: string, cursor: nat, content: nat, rest: string, block: string,
                                    close: string, tail: string)
    requires cursor <= content <= |text| && rest == text[cursor..][..content - cursor] + (block + (close + tail))
    ensures text[..cursor] + rest == text[..content] + (block + close) + tail
  {
    assert text[..cursor] + text[cursor..][..content - cursor] == text[..content];
  }

  lemma {:induction false} BlockOfRest(t: Tags, text: string, timezone: string, cursor: nat, content: nat, end: nat,
                                       next: nat, rest: string, body: string, tail: string)
    requires NotEmpty(t) && cursor <= content <= end <= next <= |text| && next == end + |t.close|
    requires rest == text[cursor..] && body == text[content..end] && tail == text[next..]
    requires NextBlock(t, rest) == Some((content - cursor, end - cursor))
    ensures Rewrite(t, rest, timezone)
      == rest[..content - cursor] + (RewriteBlock(t, body, timezone) + (t.close + Rewrite(t, tail, timezone)))
  {
    RestSlices(text, cursor, content, end, next);
    assert end - cursor + |t.close| == next - cursor;
    RewriteNext(t, rest, timezone, content - cursor, end - cursor, body, tail);
  }

  /** Moving the cursor behind a rewritten block accounts for it and leaves the tail. */
  lemma {:induction false} CursorPasses(t: Tags, text: string, cursor: nat, content: nat, end: nat, timezone: string)
    requires NotEmpty(t) && cursor <= content <= end && end + |t.close| <= |text|
    requires NextBlock(t, text[cursor..]) == Some((content - cursor, end - cursor))
    ensures text[..cursor] + Rewrite(t, text[cursor..], timezone) ==
      text[..content] + (RewriteBlock(t, text[content..end], timezone) + t.close)
      + Rewrite(t, text[end + |t.close|..], timezone)
  {
    var body, tail := text[content..end], text[end + |t.close|..];
    BlockOfRest(t, text, timezone, cursor, content, end, end + |t.close|, text[cursor..], body, tail);
    Assemble(text, cursor, content, Rewrite(t, text[cursor..], timezone), RewriteBlock(t, body, timezone),
             t.close, Rewrite(t, tail, timezone));
  }

  /** Edits the block between `contentStart` and `end` and moves the cursor behind it. */
  method EditBlock(t: Tags, text: string, contentStart: nat, end: nat, timezone: string)
    returns (after: string, cursor: nat)
    requires NotEmpty(t) && contentStart <= end && end + |t.close| <= |text| && text[end..end + |t.close|] == t.close
    ensures cursor <= |after| && after[cursor..] == text[end + |t.close|..]
    ensures after[..cursor] == text[..contentStart] + (RewriteBlock(t, text[contentStart..end], timezone) + t.close)
  {
    var found, zoneStart, zoneEnd := FindZone(t, text, contentStart, end);
    if found {
      EditedBlock(t, text, contentStart, zoneStart, zoneEnd, end, timezone);
      var previousLen := zoneEnd - zoneStart;
      after := text[..zoneStart] + timezone + text[zoneEnd..];
      cursor := end - previousLen + |timezone| + |t.close|;
    } else {
      KeepBlock(text, contentStart, end, t.close);
      after, cursor := text, end + |t.close|;
    }
  }

  lemma {:induction false} KeepBlock(text: string, content: nat, end: nat, close: string)
    requires content <= end && end + |close| <= |text| && text[end..end + |close|] == close
    ensures text[..end + |close|] == text[..content] + (text[content..end] + close)
  {
    assert text[..end + |close|] == text[..end] + close;
    assert text[..end] == text[..content] + text[content..end];
  }

  /** Behind the opening marker, searching the text is searching the rest of it. */
  lemma {:induction false} BehindOpening(t: Tags, text: string, cursor: nat, opening: nat, content: nat)
    requires cursor <= |text| && Find(text[cursor..], t.open) == Some(opening)
    requires content == cursor + opening + |t.open|
    ensures content <= |text|
    ensures NextBlock(t, text[cursor..]) ==
            match Find(text[content..], t.close)
            case None => None
            case Some(offset) => Some((content - cursor, content - cursor + offset))
  {
    RestSlices(text, cursor, content, content, content);
  }

  /** The block between an opening marker and the closing one behind it. */
  lemma {:induction false} BlockFound(t: Tags, text: string, cursor: nat, opening: nat, content: nat, offset: nat,
                                      end: nat)
    requires cursor <= |text| && Find(text[cursor..], t.open) == Some(opening)
    requires content == cursor + opening + |t.open| <= |text| && Find(text[content..], t.close) == Some(offset)
    requires end == content + offset
    ensures end + |t.close| <= |text| && text[end..end + |t.close|] == t.close
    ensures NextBlock(t, text[cursor..]) == Some((content - cursor, end - cursor))
  {
    BehindOpening(t, text, cursor, opening, content);
    ClosingFound(text, t.close, content, offset, end);
  }

  lemma {:induction false} ClosingFound(text: string, close: string, content: nat, offset: nat, end: nat)
    requires content <= |text| && OccursAt(text[content..], close, offset) && end == content + offset
    ensures end + |close| <= |text| && text[end..end + |close|] == close
  {
    OccursInTail(text, close, content, end);
  }

  /** The next block behind the cursor, in positions of the text. */
  method FindBlock(t: Tags, text: string, cursor: nat) returns (found: bool, contentStart: nat, end: nat)
    requires cursor <= |text|
    ensures !found ==> NextBlock(t, text[cursor..]) == None
    ensures found ==>
      cursor <= contentStart <= end && end + |t.close| <= |text| && text[end..end + |t.close|] == t.close
    ensures found ==> NextBlock(t, text[cursor..]) == Some((contentStart - cursor, end - cursor))
  {
    var opening := Find(text[cursor..], t.open);
    if opening.None? {
      return false, 0, 0;
    }
    contentStart := cursor + opening.value + |t.open|;
    BehindOpening(t, text, cursor, opening.value, contentStart);
    var closing := Find(text[contentStart..], t.close);
    if closing.None? {
      return false, 0, 0;
    }
    end := contentStart + closing.value;
    BlockFound(t, text, cursor, opening.value, contentStart, closing.value, end);
    found := true;
  }

  method RewriteTagged(t: Tags, original: string, timezone: string) returns (text: string)
    requires NotEmpty(t)
    ensures text == Rewrite(t, original, timezone)
  {
    text := original;
    var cursor: nat := 0;
    while true
      invariant cursor <= |text|
      invariant text[..cursor] + Rewrite(t, text[cursor..], timezone) == Rewrite(t, original, timezone)
      decreases |text| - cursor
    {
      var found, contentStart, end := FindBlock(t, text, cursor);
      if !found {
        break;
      }
      CursorPasses(t, text, cursor, contentStart, end, timezone);
      text, cursor := EditBlock(t, text, contentStart, end, timezone);
    }
    assert text[..cursor] + text[cursor..] == text;
  }

  method RewriteEnvironment(original: string, timezone: string) returns (text: string)
    ensures text == Rewrite(ENVIRONMENT, original, timezone)
  {
    text := RewriteTagged(ENVIRONMENT, original, timezone);
  }

  // ----- Parsing and printing are inverse

  lemma {:induction false} OccursInPrefix(a: string, b: string, tag: string, i: int)
    requires i + |tag| <= |a|
    ensures OccursAt(a + b, tag, i) <==> OccursAt(a, tag, i)
  {
    if 0 <= i {
      assert (a + b)[i..i + |tag|] == a[i..i + |tag|];
    }
  }

  /** Appending text does not move the first occurrence. */
  lemma {:induction false} FindPrefix(a: string, b: string, tag: string)
    requires Find(a, tag).Some?
    ensures Find(a + b, tag) == Find(a, tag)
  {
    var i := Find(a, tag).value;
    OccursInPrefix(a, b, tag, i);
    forall j | j < i ensures !OccursAt(a + b, tag, j) {
      OccursInPrefix(a, b, tag, j);
    }
  }

  lemma {:induction false} FindIs(s: string, tag: string, i: nat)
    requires OccursAt(s, tag, i) && forall j :: j < i ==> !OccursAt(s, tag, j)
    ensures Find(s, tag) == Some(i)
  {
  }

  /** The opening marker ends the head and appears nowhere before. */
  ghost predicate Opens(t: Tags, head: string) {
    |t.open| <= |head| && Find(head, t.open) == Some(|head| - |t.open|)
  }

  /** The closing marker behind the body is the first one. */
  ghost predicate Closes(t: Tags, body: string) {
    Find(body + t.close, t.close) == Some(|body|)
  }

  ghost predicate WellFormed(t: Tags, d: Document) {
    match d
    case Rest(text) => NextBlock(t, text) == None
    case Block(head, body, next) => Opens(t, head) && Closes(t, body) && WellFormed(t, next)
  }

  lemma {:induction false} HeadOpens(t: Tags, s: string, content: nat)
    requires Find(s, t.open).Some? && content == Find(s, t.open).value + |t.open|
    ensures Opens(t, s[..content])
  {
    assert s == s[..content] + s[content..];
    forall j | j + |t.open| <= content ensures OccursAt(s, t.open, j) <==> OccursAt(s[..content], t.open, j) {
      OccursInPrefix(s[..content], s[content..], t.open, j);
    }
    FindIs(s[..content], t.open, content - |t.open|);
  }

  lemma {:induction false} BodyCloses(t: Tags, s: string)
    requires Find(s, t.close).Some?
    ensures Closes(t, s[..Find(s, t.close).value])
  {
    var n := Find(s, t.close).value;
    var m := n + |t.close|;
    assert s[..n] + t.close == s[..m] && s == s[..m] + s[m..];
    forall j | j + |t.close| <= m ensures OccursAt(s, t.close, j) <==> OccursAt(s[..m], t.close, j) {
      OccursInPrefix(s[..m], s[m..], t.close, j);
    }
    FindIs(s[..m], t.close, n);
  }

  lemma {:induction false} SplitAtBlock(s: string, content: nat, end: nat, close: string)
    requires content <= end && OccursAt(s, close, end)
    ensures s == s[..content] + (s[content..end] + (close + s[end + |close|..]))
  {
    assert s[end..] == close + s[end + |close|..];
    assert s[content..] == s[content..end] + s[end..];
  }

  lemma {:induction false} BlockIsSound(t: Tags, s: string, content: nat, end: nat)
    requires NextBlock(t, s) == Some((content, end))
    ensures Opens(t, s[..content]) && Closes(t, s[content..end]) && OccursAt(s, t.close, end)
  {
    HeadOpens(t, s, content);
    BodyCloses(t, s[content..]);
    assert s[content..][..end - content] == s[content..end];
    OccursInTail(s, t.close, content, end);
  }

  lemma {:induction false} BlockParsed(t: Tags, s: string, content: nat, end: nat, body: string, tail: string)
    requires NotEmpty(t) && NextBlock(t, s) == Some((content, end))
    requires body == s[content..end] && tail == s[end + |t.close|..]
    requires WellFormed(t, Parse(t, tail)) && Unparse(t, Parse(t, tail)) == tail
    ensures WellFormed(t, Parse(t, s)) && Unparse(t, Parse(t, s)) == s
  {
    BlockIsSound(t, s, content, end);
    SplitAtBlock(s, content, end, t.close);
    ParseNext(t, s, content, end, body, tail);
  }

  lemma {:induction false} ParseWellFormed(t: Tags, s: string)
    requires NotEmpty(t)
    ensures WellFormed(t, Parse(t, s)) && Unparse(t, Parse(t, s)) == s
    decreases |s|
  {
    match NextBlock(t, s)
    case None =>
    case Some((content, end)) =>
      var body, tail := s[content..end], s[end + |t.close|..];
      ParseWellFormed(t, tail);
      BlockParsed(t, s, content, end, body, tail);
  }

  lemma {:induction false} NextBlockOf(t: Tags, head: string, body: string, rest: string)
    requires Opens(t, head) && Closes(t, body)
    ensures NextBlock(t, head + (body + (t.close + rest))) == Some((|head|, |head| + |body|))
  {
    var s := head + (body + (t.close + rest));
    FindPrefix(head, body + (t.close + rest), t.open);
    FindPrefix(body + t.close, rest, t.close);
    assert s[|head|..] == (body + t.close) + rest;
  }

  lemma {:induction false} JoinSlices(head: string, body: string, close: string, rest: string)
    ensures var s := head + (body + (close + rest));
      s[..|head|] == head && s[|head|..|head| + |body|] == body && s[|head| + |body| + |close|..] == rest
  {
  }

  lemma {:induction false} ParseBlock(t: Tags, head: string, body: string, rest: string, s: string)
    requires NotEmpty(t) && Opens(t, head) && Closes(t, body) && s == head + (body + (t.close + rest))
    ensures Parse(t, s) == Block(head, body, Parse(t, rest))
  {
    NextBlockOf(t, head, body, rest);
    JoinSlices(head, body, t.close, rest);
    ParseNext(t, s, |head|, |head| + |body|, body, rest);
  }

  /** A document whose markers are where the scanner looks for them is read back as printed. */
  lemma {:induction false} ParseUnparse(t: Tags, d: Document)
    requires NotEmpty(t) && WellFormed(t, d)
    ensures Parse(t, Unparse(t, d)) == d
  {
    match d
    case Rest(_) =>
    case Block(head, body, next) =>
      ParseUnparse(t, next);
      ParseBlock(t, head, body, Unparse(t, next), Unparse(t, d));
  }

  /** Reading finds the one well-formed document that prints as the text. */
  lemma {:induction false} ParseIff(t: Tags, s: string, d: Document)
    requires NotEmpty(t)
    ensures Parse(t, s) == d <==> WellFormed(t, d) && Unparse(t, d) == s
  {
    ParseWellFormed(t, s);
    if WellFormed(t, d) {
      ParseUnparse(t, d);
    }
  }

  // ----- Markers survive a change of zone

  /** Around a zone body no marker can start, end or straddle. */
  ghost predicate Splits(pre: string, zone: string, post: string) {
    && pre != [] && pre[|pre| - 1] == '>'
    && post != [] && post[0] == '<'
    && '<' !in zone
  }

  /** Markers occur where they occur in the texts around the zone, and nowhere else. */
  lemma {:induction false} OccursAround(pre: string, zone: string, post: string, tag: string, i: int)
    requires IsTag(tag) && Splits(pre, zone, post)
    ensures OccursAt(pre + zone + post, tag, i) <==>
      OccursAt(pre, tag, i) || OccursAt(post, tag, i - |pre| - |zone|)
  {
    var s := pre + zone + post;
    if i + |tag| <= |pre| {
      assert s == pre + (zone + post);
      OccursInPrefix(pre, zone + post, tag, i);
    } else if i >= |pre| + |zone| {
      OccursInTail(s, tag, |pre| + |zone|, i);
      assert s[|pre| + |zone|..] == post;
    } else if 0 <= i && i + |tag| <= |s| {
      var match' := s[i..i + |tag|];
      assert match'[0] == s[i];
      assert i < |pre| ==> match'[|pre| - 1 - i] == s[|pre| - 1] == '>';
      assert i >= |pre| ==> s[i] == zone[i - |pre|];
    }
  }

  ghost predicate OnlyAt(s: string, tag: string, i: int) {
    OccursAt(s, tag, i) && forall j :: OccursAt(s, tag, j) ==> j == i
  }

  lemma {:induction false} NoOverlap(s: string, tag: string, i: int, j: int)
    requires IsTag(tag) && OccursAt(s, tag, i) && OccursAt(s, tag, j) && i < j
    ensures i + |tag| <= j
  {
    assert s[j] == s[j..j + |tag|][0];
    forall p | i < p < i + |tag| ensures s[p] != '<' {
      assert s[p] == s[i..i + |tag|][p - i];
    }
  }

  /** A marker is counted once exactly when it occurs at one place. */
  lemma {:induction false} CountedOnce(s: string, tag: string)
    requires IsTag(tag)
    ensures CountMatches(s, tag) == 1 <==> Find(s, tag).Some? && OnlyAt(s, tag, Find(s, tag).value)
  {
    match Find(s, tag)
    case None =>
    case Some(i) =>
      var k := i + |tag|;
      if Find(s[k..], tag).Some? {
        OccursInTail(s, tag, k, k + Find(s[k..], tag).value);
      } else {
        forall j | OccursAt(s, tag, j) ensures j == i {
          if j > i {
            NoOverlap(s, tag, i, j);
            OccursInTail(s, tag, k, j);
          }
        }
      }
  }

  lemma {:induction false} OnceAt(s: string, tag: string, i: nat)
    requires IsTag(tag) && OnlyAt(s, tag, i)
    ensures CountMatches(s, tag) == 1 && Find(s, tag) == Some(i)
  {
    FindIs(s, tag, i);
    CountedOnce(s, tag);
  }

  /** A block is cut at its zone. */
  ghost predicate CutAtZone(t: Tags, pre: string, z: string, post: string)
    requires NotEmpty(t)
  {
    ZoneOf(t, pre + z + post) == Some((|pre|, |pre| + |z|))
  }

  lemma {:induction false} CutBlock(t: Tags, block: string, a: nat, b: nat)
    requires NotEmpty(t) && ZoneOf(t, block) == Some((a, b))
    ensures a <= b <= |block| && block[..a] + block[a..b] + block[b..] == block
    ensures CutAtZone(t, block[..a], block[a..b], block[b..])
  {
    assert block[..a] + block[a..b] + block[b..] == block;
  }

  /** No marker touches the zone body of a block. */
  lemma {:induction false} ZoneSplits(t: Tags, pre: string, z: string, post: string)
    requires AreTags(t) && NotEmpty(t) && CutAtZone(t, pre, z, post)
    ensures Splits(pre, z, post) && |t.zoneOpen| <= |pre|
    ensures OnlyAt(pre + z + post, t.zoneOpen, |pre| - |t.zoneOpen|) && OnlyAt(pre + z + post, t.zoneClose, |pre| + |z|)
    ensures forall j :: !OccursAt(pre + z + post, t.open, j)
  {
    var block, i, b := pre + z + post, |pre| - |t.zoneOpen|, |pre| + |z|;
    CountedOnce(block, t.zoneOpen);
    CountedOnce(block, t.zoneClose);
    assert block[i..i + |t.zoneOpen|][|t.zoneOpen| - 1] == block[|pre| - 1] == pre[|pre| - 1];
    assert block[b..b + |t.zoneClose|][0] == block[b];
    assert block[|pre|..b] == z;
  }

  /** With another zone body every marker keeps its place, shifted behind the zone. */
  lemma {:induction false} MarkersMove(pre: string, z: string, w: string, post: string, tag: string, i: int)
    requires IsTag(tag) && Splits(pre, z, post) && Splits(pre, w, post)
    ensures OccursAt(pre + w + post, tag, i) ==>
      if i < |pre| then OccursAt(pre + z + post, tag, i)
      else OccursAt(pre + z + post, tag, i - |w| + |z|) && i >= |pre| + |w|
    ensures i < |pre| && OccursAt(pre + z + post, tag, i) ==> OccursAt(pre + w + post, tag, i)
    ensures i >= |pre| + |z| && OccursAt(pre + z + post, tag, i) ==> OccursAt(pre + w + post, tag, i - |z| + |w|)
  {
    OccursAround(pre, z, post, tag, i);
    OccursAround(pre, w, post, tag, i);
    OccursAround(pre, z, post, tag, i - |w| + |z|);
    OccursAround(pre, w, post, tag, i - |z| + |w|);
  }

  lemma {:induction false} OnlyMoves(pre: string, z: string, w: string, post: string, tag: string, i: int)
    requires IsTag(tag) && Splits(pre, z, post) && Splits(pre, w, post)
    requires OnlyAt(pre + z + post, tag, i) && (i < |pre| || i >= |pre| + |z|)
    ensures OnlyAt(pre + w + post, tag, if i < |pre| then i else i - |z| + |w|)
  {
    MarkersMove(pre, z, w, post, tag, i);
    forall j | OccursAt(pre + w + post, tag, j) ensures j == if i < |pre| then i else i - |z| + |w| {
      MarkersMove(pre, z, w, post, tag, j);
    }
  }

  lemma {:induction false} ZoneIs(t: Tags, block: string, a: nat, b: nat)
    requires AreTags(t) && NotEmpty(t) && |t.zoneOpen| <= a <= b <= |block| && '<' !in block[a..b]
    requires OnlyAt(block, t.zoneOpen, a - |t.zoneOpen|) && OnlyAt(block, t.zoneClose, b)
      && forall j :: !OccursAt(block, t.open, j)
    ensures ZoneOf(t, block) == Some((a, b))
  {
    OnceAt(block, t.zoneOpen, a - |t.zoneOpen|);
    OnceAt(block, t.zoneClose, b);
  }

  /** What a block must look like for its zone to be replaced: no second opening of a block, both zone markers
      exactly once, in order, and no other marker between them. */
  lemma {:induction false} ZoneIff(t: Tags, block: string, a: nat, b: nat)
    requires AreTags(t) && NotEmpty(t)
    ensures ZoneOf(t, block) == Some((a, b)) <==>
      && |t.zoneOpen| <= a <= b <= |block| && '<' !in block[a..b]
      && OnlyAt(block, t.zoneOpen, a - |t.zoneOpen|) && OnlyAt(block, t.zoneClose, b)
      && forall j :: !OccursAt(block, t.open, j)
  {
    if ZoneOf(t, block) == Some((a, b)) {
      CutBlock(t, block, a, b);
      ZoneSplits(t, block[..a], block[a..b], block[b..]);
    } else if |t.zoneOpen| <= a <= b <= |block| && '<' !in block[a..b] && OnlyAt(block, t.zoneOpen, a - |t.zoneOpen|)
              && OnlyAt(block, t.zoneClose, b) && Find(block, t.open).None? {
      ZoneIs(t, block, a, b);
    }
  }

  lemma {:induction false} NeverMoves(pre: string, z: string, w: string, post: string, tag: string)
    requires IsTag(tag) && Splits(pre, z, post) && Splits(pre, w, post)
    requires forall j :: !OccursAt(pre + z + post, tag, j)
    ensures forall j :: !OccursAt(pre + w + post, tag, j)
  {
    forall j ensures !OccursAt(pre + w + post, tag, j) {
      MarkersMove(pre, z, w, post, tag, j);
    }
  }

  lemma {:induction false} SplitMoves(t: Tags, pre: string, z: string, w: string, post: string)
    requires AreTags(t) && NotEmpty(t) && Splits(pre, z, post) && Splits(pre, w, post) && |t.zoneOpen| <= |pre|
    requires OnlyAt(pre + z + post, t.zoneOpen, |pre| - |t.zoneOpen|)
      && OnlyAt(pre + z + post, t.zoneClose, |pre| + |z|)
    requires forall j :: !OccursAt(pre + z + post, t.open, j)
    ensures ZoneOf(t, pre + w + post) == Some((|pre|, |pre| + |w|))
  {
    OnlyMoves(pre, z, w, post, t.zoneOpen, |pre| - |t.zoneOpen|);
    OnlyMoves(pre, z, w, post, t.zoneClose, |pre| + |z|);
    NeverMoves(pre, z, w, post, t.open);
    assert (pre + w + post)[|pre|..|pre| + |w|] == w;
    ZoneIs(t, pre + w + post, |pre|, |pre| + |w|);
  }

  /** A rewritten block still has its zone, and the zone body is the new one. */
  lemma {:induction false} ZoneMoves(t: Tags, pre: string, z: string, w: string, post: string)
    requires AreTags(t) && NotEmpty(t) && CutAtZone(t, pre, z, post) && '<' !in w
    ensures CutAtZone(t, pre, w, post)
  {
    ZoneSplits(t, pre, z, post);
    SplitMoves(t, pre, z, w, post);
  }

  lemma {:induction false} FirstMoves(pre: string, z: string, w: string, post: string, tag: string, i: nat)
    requires IsTag(tag) && Splits(pre, z, post) && Splits(pre, w, post)
    requires Find(pre + z + post, tag) == Some(i) && i >= |pre| + |z|
    ensures Find(pre + w + post, tag) == Some(i - |z| + |w|)
  {
    MarkersMove(pre, z, w, post, tag, i);
    forall j | j < i - |z| + |w| ensures !OccursAt(pre + w + post, tag, j) {
      MarkersMove(pre, z, w, post, tag, j);
    }
    FindIs(pre + w + post, tag, i - |z| + |w|);
  }

  /** A rewritten block still ends at the same closing marker. */
  lemma {:induction false} CloseMoves(t: Tags, pre: string, z: string, w: string, post: string)
    requires AreTags(t) && Splits(pre, z, post) && Splits(pre, w, post) && Closes(t, pre + z + post)
    ensures Closes(t, pre + w + post)
  {
    assert pre + z + post + t.close == pre + z + (post + t.close);
    assert pre + w + post + t.close == pre + w + (post + t.close);
    FirstMoves(pre, z, w, post + t.close, t.close, |pre + z + post|);
  }

  // ----- Main results

  lemma {:induction false} RewriteBlockCloses(t: Tags, block: string, timezone: string)
    requires AreTags(t) && NotEmpty(t) && Closes(t, block) && '<' !in timezone
    ensures Closes(t, RewriteBlock(t, block, timezone))
  {
    match ZoneOf(t, block)
    case None =>
    case Some((a, b)) =>
      CutBlock(t, block, a, b);
      ZoneSplits(t, block[..a], block[a..b], block[b..]);
      CloseMoves(t, block[..a], block[a..b], timezone, block[b..]);
  }

  lemma {:induction false} RewriteKeepsForm(t: Tags, d: Document, timezone: string)
    requires AreTags(t) && NotEmpty(t) && WellFormed(t, d) && '<' !in timezone
    ensures WellFormed(t, RewriteZones(t, d, timezone))
  {
    match d
    case Rest(_) =>
    case Block(head, body, next) =>
      RewriteKeepsForm(t, next, timezone);
      RewriteBlockCloses(t, body, timezone);
  }

  lemma {:induction false} RewriteCut(t: Tags, pre: string, z: string, post: string, timezone: string)
    requires NotEmpty(t) && CutAtZone(t, pre, z, post)
    ensures RewriteBlock(t, pre + z + post, timezone) == pre + timezone + post
  {
    var block := pre + z + post;
    assert block[..|pre|] == pre && block[|pre| + |z|..] == post;
  }

  /** Rewriting a block again overwrites the first zone. */
  lemma {:induction false} RewriteBlockTwice(t: Tags, block: string, first: string, second: string)
    requires AreTags(t) && NotEmpty(t) && '<' !in first
    ensures RewriteBlock(t, RewriteBlock(t, block, first), second) == RewriteBlock(t, block, second)
  {
    match ZoneOf(t, block)
    case None =>
    case Some((a, b)) =>
      CutBlock(t, block, a, b);
      var pre, z, post := block[..a], block[a..b], block[b..];
      ZoneMoves(t, pre, z, first, post);
      RewriteCut(t, pre, first, post, second);
  }

  lemma {:induction false} RewriteZonesTwice(t: Tags, d: Document, first: string, second: string)
    requires AreTags(t) && NotEmpty(t) && '<' !in first
    ensures RewriteZones(t, RewriteZones(t, d, first), second) == RewriteZones(t, d, second)
  {
    if d.Block? {
      RewriteZonesTwice(t, d.next, first, second);
      RewriteBlockTwice(t, d.body, first, second);
    }
  }

  /** Rewriting to one zone and then to another is rewriting to the second directly. */
  lemma {:induction false} RewriteTwice(s: string, first: string, second: string)
    requires '<' !in first
    ensures NotEmpty(ENVIRONMENT)
    ensures Rewrite(ENVIRONMENT, Rewrite(ENVIRONMENT, s, first), second) == Rewrite(ENVIRONMENT, s, second)
  {
    EnvironmentTags();
    RewriteTwiceFor(ENVIRONMENT, s, first, second);
  }

  lemma {:induction false} RewriteTwiceFor(t: Tags, s: string, first: string, second: string)
    requires AreTags(t) && NotEmpty(t) && '<' !in first
    ensures Rewrite(t, Rewrite(t, s, first), second) == Rewrite(t, s, second)
  {
    var d := Parse(t, s);
    ParseWellFormed(t, s);
    RewriteKeepsForm(t, d, first);
    ParseUnparse(t, RewriteZones(t, d, first));
    RewriteZonesTwice(t, d, first, second);
  }

  // ----- Nothing outside the zone bodies changes

  /** A text with its zone bodies told apart from everything else. */
  datatype Layout = Text(text: string) | Hole(text: string, zone: string, rest: Layout)

  function Flat(l: Layout): string {
    match l
    case Text(text) => text
    case Hole(text, zone, rest) => text + (zone + Flat(rest))
  }

  function Fill(l: Layout, timezone: string): Layout {
    match l
    case Text(_) => l
    case Hole(text, _, rest) => Hole(text, timezone, Fill(rest, timezone))
  }

  function Prepend(x: string, l: Layout): Layout {
    match l
    case Text(text) => Text(x + text)
    case Hole(text, zone, rest) => Hole(x + text, zone, rest)
  }

  function LayoutOf(t: Tags, d: Document): Layout
    requires NotEmpty(t)
  {
    match d
    case Rest(text) => Text(text)
    case Block(head, body, next) =>
      match ZoneOf(t, body)
      case None => Prepend(head + (body + t.close), LayoutOf(t, next))
      case Some((a, b)) => Hole(head + body[..a], body[a..b], Prepend(body[b..] + t.close, LayoutOf(t, next)))
  }

  lemma {:induction false} FlatPrepend(x: string, l: Layout)
    ensures Flat(Prepend(x, l)) == x + Flat(l)
  {
    match l
    case Text(_) =>
    case Hole(text, zone, rest) =>
      assert x + text + (zone + Flat(rest)) == x + (text + (zone + Flat(rest)));
  }

  lemma {:induction false} FillPrepend(x: string, l: Layout, timezone: string)
    ensures Fill(Prepend(x, l), timezone) == Prepend(x, Fill(l, timezone))
  {
  }

  lemma {:induction false} FlatWhole(head: string, body: string, close: string, l: Layout)
    ensures Flat(Prepend(head + (body + close), l)) == head + (body + (close + Flat(l)))
  {
    FlatPrepend(head + (body + close), l);
    var tail := Flat(l);
    assert head + (body + close) + tail == head + (body + (close + tail));
  }

  lemma {:induction false} FlatHole(head: string, a: string, z: string, b: string, close: string, l: Layout)
    ensures Flat(Hole(head + a, z, Prepend(b + close, l))) == head + ((a + z + b) + (close + Flat(l)))
  {
    FlatPrepend(b + close, l);
    var tail := Flat(l);
    assert head + a + (z + (b + close + tail)) == head + ((a + z + b) + (close + tail));
  }

  lemma {:induction false} FlatIsText(t: Tags, d: Document)
    requires NotEmpty(t)
    ensures Flat(LayoutOf(t, d)) == Unparse(t, d)
  {
    match d
    case Rest(_) =>
    case Block(head, body, next) =>
      FlatIsText(t, next);
      match ZoneOf(t, body)
      case None => FlatWhole(head, body, t.close, LayoutOf(t, next));
      case Some((a, b)) =>
        FlatHole(head, body[..a], body[a..b], body[b..], t.close, LayoutOf(t, next));
        CutBlock(t, body, a, b);
  }

  lemma {:induction false} FillIsRewrite(t: Tags, d: Document, timezone: string)
    requires NotEmpty(t)
    ensures Flat(Fill(LayoutOf(t, d), timezone)) == Unparse(t, RewriteZones(t, d, timezone))
  {
    match d
    case Rest(_) =>
    case Block(head, body, next) =>
      FillIsRewrite(t, next, timezone);
      var l := LayoutOf(t, next);
      match ZoneOf(t, body)
      case None =>
        FillPrepend(head + (body + t.close), l, timezone);
        FlatWhole(head, body, t.close, Fill(l, timezone));
      case Some((a, b)) =>
        FillPrepend(body[b..] + t.close, l, timezone);
        FlatHole(head, body[..a], timezone, body[b..], t.close, Fill(l, timezone));
  }

  /** One layout explains the text and every rewriting of it. */
  lemma {:induction false} OnlyZonesChange(s: string)
    ensures NotEmpty(ENVIRONMENT)
    ensures var layout := LayoutOf(ENVIRONMENT, Parse(ENVIRONMENT, s));
      Flat(layout) == s && forall timezone: string :: Rewrite(ENVIRONMENT, s, timezone) == Flat(Fill(layout, timezone))
  {
    EnvironmentTags();
    var d := Parse(ENVIRONMENT, s);
    ParseWellFormed(ENVIRONMENT, s);
    FlatIsText(ENVIRONMENT, d);
    forall timezone: string
      ensures Rewrite(ENVIRONMENT, s, timezone) == Flat(Fill(LayoutOf(ENVIRONMENT, d), timezone)) {
      FillIsRewrite(ENVIRONMENT, d, timezone);
    }
  }
}
