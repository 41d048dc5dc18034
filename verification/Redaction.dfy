/** Credential redaction from internal/ai/ai.go: the rescanning PEM loop, and the
  line pass that runs after it.  Text is ASCII where case matters. */
module Redaction {
  import opened Texts

  const BEGIN := "-----BEGIN"
  const END := "-----END"
  const MARKER := "[REDACTED]"

  // ------------------------------------------------------------- substrings

  predicate OccursAt(text: string, pattern: string, i: int) {
    0 <= i && i + |pattern| <= |text| && text[i..i + |pattern|] == pattern
  }

  ghost predicate Contains(text: string, pattern: string) {
    exists i :: OccursAt(text, pattern, i)
  }

  /** Go's strings.Index: the first occurrence, or -1. */
  function IndexOf(text: string, pattern: string): (i: int)
    ensures i == -1 || OccursAt(text, pattern, i)
    ensures forall j :: OccursAt(text, pattern, j) ==> 0 <= i <= j
  {
    if |text| < |pattern| then -1
    else if text[..|pattern|] == pattern then 0
    else
      var rest := IndexOf(text[1..], pattern);
      assert forall j :: j > 0 && OccursAt(text, pattern, j) ==> OccursAt(text[1..], pattern, j - 1);
      if rest < 0 then -1
      else
        assert text[1..][rest..rest + |pattern|] == text[rest + 1..rest + 1 + |pattern|];
        rest + 1
  }

  lemma IndexFindsContained(text: string, pattern: string)
    ensures IndexOf(text, pattern) == -1 <==> !Contains(text, pattern)
  {
  }

  lemma OccurrenceChar(text: string, pattern: string, i: int, k: int)
    requires OccursAt(text, pattern, i) && 0 <= k < |pattern|
    ensures text[i + k] == pattern[k]
  {
  }

  lemma Embeds(a: string, b: string, c: string, pattern: string, i: int)
    requires OccursAt(b, pattern, i)
    ensures OccursAt(a + b + c, pattern, |a| + i)
  {
  }

  lemma SliceOfClean(s: string, lo: nat, hi: nat, pattern: string)
    requires lo <= hi <= |s| && !Contains(s, pattern)
    ensures !Contains(s[lo..hi], pattern)
  {
    if Contains(s[lo..hi], pattern) {
      var i :| OccursAt(s[lo..hi], pattern, i);
      assert s == s[..lo] + s[lo..hi] + s[hi..];
      Embeds(s[..lo], s[lo..hi], s[hi..], pattern, i);
    }
  }

  /** An occurrence cannot straddle a character the pattern does not have. */
  lemma SeparatedOccurrence(a: string, c: char, b: string, pattern: string, i: int)
    requires c !in pattern && pattern != "" && OccursAt(a + [c] + b, pattern, i)
    ensures OccursAt(a, pattern, i) || OccursAt(b, pattern, i - |a| - 1)
  {
    var whole := a + [c] + b;
    if i + |pattern| <= |a| {
      assert whole[i..i + |pattern|] == a[i..i + |pattern|];
    } else if i > |a| {
      assert whole[i..i + |pattern|] == b[i - |a| - 1..i - |a| - 1 + |pattern|];
    } else {
      OccurrenceChar(whole, pattern, i, |a| - i);
    }
  }

  lemma Separated(a: string, c: char, b: string, pattern: string)
    requires c !in pattern && pattern != "" && !Contains(a, pattern) && !Contains(b, pattern)
    ensures !Contains(a + [c] + b, pattern)
  {
    if Contains(a + [c] + b, pattern) {
      var i :| OccursAt(a + [c] + b, pattern, i);
      SeparatedOccurrence(a, c, b, pattern, i);
    }
  }

  // --------------------------------------------------------------- PEM blocks

  /** What follows a block: the line end after its END line, or nothing when the
    block or that line is unterminated. */
  function AfterBlock(block: string): (rest: string)
    ensures |rest| <= |block| && rest == block[|block| - |rest|..]
  {
    var finish := IndexOf(block, END);
    if finish < 0 then ""
    else
      var lineEnd := IndexOf(block[finish..], "\n");
      if lineEnd < 0 then "" else block[finish + lineEnd..]
  }

  lemma EndIsBeyondBegin(block: string, finish: int)
    requires BEGIN <= block && OccursAt(block, END, finish)
    ensures finish >= |BEGIN|
  {
    if finish < |BEGIN| {
      var k := if finish < 6 then 5 - finish else 0;
      assert BEGIN[finish + k] != END[k];
      assert block[finish + k] == BEGIN[finish + k];
      OccurrenceChar(block, END, finish, k);
    }
  }

  lemma LineEndIsBeyondEnd(line: string, lineEnd: int)
    requires END <= line && OccursAt(line, "\n", lineEnd)
    ensures lineEnd >= |END|
  {
    assert forall k :: 0 <= k < |END| ==> line[k] == END[k] && END[k] != '\n';
    OccurrenceChar(line, "\n", lineEnd, 0);
  }

  /** A terminated block is at least 18 characters long, so replacing it by the
    10 of the marker shortens the text. */
  lemma BlockIsLong(block: string)
    requires BEGIN <= block
    ensures |AfterBlock(block)| <= |block| - |BEGIN|
    ensures IndexOf(block, END) != -1 ==> |AfterBlock(block)| <= |block| - |BEGIN| - |END|
  {
    hide IndexOf;
    var finish := IndexOf(block, END);
    if finish >= 0 {
      EndIsBeyondBegin(block, finish);
      var line := block[finish..];
      assert line[..|END|] == block[finish..finish + |END|];
      var lineEnd := IndexOf(line, "\n");
      if lineEnd >= 0 {
        LineEndIsBeyondEnd(line, lineEnd);
      }
    }
  }

  /** One left-to-right pass: every block becomes the marker. */
  function Scrub(text: string): string
    decreases |text|
  {
    var start := IndexOf(text, BEGIN);
    if start < 0 then text
    else
      BlockIsLong(text[start..]);
      text[..start] + MARKER + Scrub(AfterBlock(text[start..]))
  }

  lemma NoDashIsClean(s: string)
    requires '-' !in s
    ensures !Contains(s, BEGIN)
  {
    if Contains(s, BEGIN) {
      var i :| OccursAt(s, BEGIN, i);
      OccurrenceChar(s, BEGIN, i, 0);
    }
  }

  /** The marker keeps what stands on either side of it apart. */
  lemma MarkerSeparates(a: string, b: string)
    requires !Contains(a, BEGIN)
    ensures !Contains(b, BEGIN) ==> !Contains(a + MARKER + b, BEGIN)
    ensures forall i :: OccursAt(a + MARKER + b, BEGIN, i) ==> OccursAt(b, BEGIN, i - |a| - |MARKER|)
  {
    var whole := a + MARKER + b;
    NoDashIsClean("REDACTED");
    hide IndexOf;
    forall i | OccursAt(whole, BEGIN, i)
      ensures OccursAt(b, BEGIN, i - |a| - |MARKER|)
    {
      assert whole == a + ['['] + ("REDACTED" + [']'] + b);
      SeparatedOccurrence(a, '[', "REDACTED" + [']'] + b, BEGIN, i);
      SeparatedOccurrence("REDACTED", ']', b, BEGIN, i - |a| - 1);
    }
  }

  lemma FirstAfterMarker(a: string, b: string)
    requires !Contains(a, BEGIN)
    ensures IndexOf(a + MARKER + b, BEGIN) ==
              if IndexOf(b, BEGIN) < 0 then -1 else |a| + |MARKER| + IndexOf(b, BEGIN)
  {
    var whole, n, k := a + MARKER + b, |a| + |MARKER|, IndexOf(b, BEGIN);
    MarkerSeparates(a, b);
    if k >= 0 {
      assert whole[n + k..n + k + |BEGIN|] == b[k..k + |BEGIN|];
      assert OccursAt(whole, BEGIN, n + k);
    }
  }

  /** Rescanning from the start finds nothing in what was already scrubbed. */
  lemma RescanResumes(a: string, b: string)
    requires !Contains(a, BEGIN)
    ensures Scrub(a + MARKER + b) == a + MARKER + Scrub(b)
  {
    hide IndexOf, AfterBlock, Contains, BEGIN, MARKER;
    FirstAfterMarker(a, b);
    var k := IndexOf(b, BEGIN);
    if k >= 0 {
      Regrouped(a, MARKER, b, k, Scrub(AfterBlock(b[k..])));
    }
  }

  lemma Regrouped(a: string, marker: string, b: string, k: nat, rest: string)
    requires k <= |b|
    ensures (a + marker + b)[|a| + |marker| + k..] == b[k..]
    ensures (a + marker + b)[..|a| + |marker| + k] == a + marker + b[..k]
    ensures a + marker + b[..k] + marker + rest == a + marker + (b[..k] + marker + rest)
  {
  }

  lemma PrefixBeforeFirst(text: string, start: int)
    requires start == IndexOf(text, BEGIN) && start >= 0
    ensures !Contains(text[..start], BEGIN) && BEGIN <= text[start..]
  {
    hide IndexOf;
    if Contains(text[..start], BEGIN) {
      var i :| OccursAt(text[..start], BEGIN, i);
      assert text == [] + text[..start] + text[start..];
      Embeds([], text[..start], text[start..], BEGIN, i);
    }
    assert text[start..][..|BEGIN|] == text[start..start + |BEGIN|];
  }

  /** The loop of the source, which starts again from the beginning of the
    shortened text after every block. */
  method RedactPEM(text: string) returns (clean: string)
    ensures clean == Scrub(text)
  {
    hide IndexOf;
    clean := text;
    while true
      invariant Scrub(clean) == Scrub(text)
      decreases |clean|
    {
      var start := IndexOf(clean, BEGIN);
      if start < 0 {
        return;
      }
      PrefixBeforeFirst(clean, start);
      BlockIsLong(clean[start..]);
      RescanResumes(clean[..start], AfterBlock(clean[start..]));
      var finish := IndexOf(clean[start..], END);
      if finish < 0 {
        RescanResumes(clean[..start], "");
        assert clean[..start] + MARKER + "" == clean[..start] + MARKER;
        return clean[..start] + MARKER;
      }
      var tail := clean[start + finish..];
      assert clean[start..][finish..] == tail;
      var lineEnd := IndexOf(tail, "\n");
      if lineEnd >= 0 {
        assert clean[start..][finish + lineEnd..] == tail[lineEnd..];
        clean := clean[..start] + MARKER + tail[lineEnd..];
      } else {
        assert clean[..start] + MARKER + "" == clean[..start] + MARKER;
        clean := clean[..start] + MARKER;
      }
    }
  }

  /** No marker of a key block survives. */
  lemma {:induction false} ScrubRemovesBlocks(text: string)
    ensures !Contains(Scrub(text), BEGIN)
    decreases |text|
  {
    hide IndexOf, AfterBlock;
    IndexFindsContained(text, BEGIN);
    var start := IndexOf(text, BEGIN);
    if start >= 0 {
      PrefixBeforeFirst(text, start);
      BlockIsLong(text[start..]);
      ScrubRemovesBlocks(AfterBlock(text[start..]));
      MarkerSeparates(text[..start], Scrub(AfterBlock(text[start..])));
    }
  }

  lemma CleanTextIsKept(text: string)
    ensures Scrub(text) == text <== !Contains(text, BEGIN)
    ensures Scrub(Scrub(text)) == Scrub(text)
  {
    IndexFindsContained(text, BEGIN);
    ScrubRemovesBlocks(text);
    IndexFindsContained(Scrub(text), BEGIN);
  }

  // What is kept and what goes, as a decomposition of the text.

  datatype Piece = Kept(text: string) | Block(text: string)

  function Pieces(text: string): seq<Piece>
    decreases |text|
  {
    var start := IndexOf(text, BEGIN);
    if start < 0 then [Kept(text)]
    else
      var block := text[start..];
      var rest := (BlockIsLong(block); AfterBlock(block));
      [Kept(text[..start]), Block(block[..|block| - |rest|])] + Pieces(rest)
  }

  function Flatten(ps: seq<Piece>): string {
    if ps == [] then "" else ps[0].text + Flatten(ps[1..])
  }

  function Render(ps: seq<Piece>): string {
    if ps == [] then "" else (if ps[0].Kept? then ps[0].text else MARKER) + Render(ps[1..])
  }

  /** A block runs from BEGIN through the line that holds the first END, or, with
    no END, to the end of the text. */
  ghost predicate IsBlock(b: string, next: string) {
    && BEGIN <= b
    && if Contains(b, END)
       then !Contains(b[IndexOf(b, END)..], "\n") && (next == "" || next[0] == '\n')
       else next == ""
  }

  ghost predicate WellCut(ps: seq<Piece>) {
    && |ps| % 2 == 1
    && (forall i :: 0 <= i < |ps| ==> (ps[i].Kept? <==> i % 2 == 0))
    && (forall i :: 0 <= i < |ps| && i % 2 == 0 ==> !Contains(ps[i].text, BEGIN))
    && (forall i :: 0 <= i < |ps| && i % 2 == 1 ==> IsBlock(ps[i].text, Flatten(ps[i + 1..])))
  }

  lemma CutBlock(block: string)
    requires BEGIN <= block
    ensures IsBlock(block[..|block| - |AfterBlock(block)|], AfterBlock(block))
  {
    hide IndexOf;
    BlockIsLong(block);
    var rest, finish := AfterBlock(block), IndexOf(block, END);
    var b := block[..|block| - |rest|];
    IndexFindsContained(block, END);
    assert block == [] + b + rest;
    if finish < 0 {
      assert b == block;
    } else {
      var line := block[finish..];
      var lineEnd := IndexOf(line, "\n");
      assert line[..|END|] == block[finish..finish + |END|];
      if lineEnd >= 0 {
        LineEndIsBeyondEnd(line, lineEnd);
        OccurrenceChar(line, "\n", lineEnd, 0);
      }
      var cut := b[finish..];
      assert b[finish..finish + |END|] == block[finish..finish + |END|];
      FirstOfPrefix(b, rest, END, finish);
      if Contains(cut, "\n") {
        var j :| OccursAt(cut, "\n", j);
        assert line == [] + cut + rest;
        Embeds([], cut, rest, "\n", j);
      }
    }
  }

  lemma FirstOfPrefix(b: string, rest: string, pattern: string, i: int)
    requires IndexOf(b + rest, pattern) == i >= 0 && OccursAt(b, pattern, i)
    ensures IndexOf(b, pattern) == i
  {
    hide IndexOf;
    var j := IndexOf(b, pattern);
    assert [] + b + rest == b + rest;
    Embeds([], b, rest, pattern, j);
  }

  /** The first block of a text, and how both readings of the text go on. */
  lemma FirstBlock(text: string) returns (head: seq<Piece>, rest: string)
    requires IndexOf(text, BEGIN) >= 0
    ensures |head| == 2 && head[0].Kept? && head[1].Block? && |rest| < |text|
    ensures text == head[0].text + head[1].text + rest
    ensures !Contains(head[0].text, BEGIN) && IsBlock(head[1].text, rest)
    ensures Pieces(text) == head + Pieces(rest)
    ensures Scrub(text) == head[0].text + MARKER + Scrub(rest)
  {
    hide Contains, IsBlock;
    IndexFindsContained(text, BEGIN);
    var start := IndexOf(text, BEGIN);
    hide IndexOf;
    PrefixBeforeFirst(text, start);
    var block := text[start..];
    BlockIsLong(block);
    CutBlock(block);
    rest := AfterBlock(block);
    hide AfterBlock;
    head := [Kept(text[..start]), Block(block[..|block| - |rest|])];
    assert text == text[..start] + block[..|block| - |rest|] + rest;
  }

  /** Nothing outside the removed blocks is lost, added or reordered: the text is
    kept stretches alternating with whole blocks, and the result is the same
    stretches in the same order with the marker for each block. */
  lemma {:induction false} OnlyBlocksGo(text: string)
    ensures Flatten(Pieces(text)) == text
    ensures Render(Pieces(text)) == Scrub(text)
    ensures WellCut(Pieces(text))
    decreases |text|
  {
    hide *;
    if IndexOf(text, BEGIN) < 0 {
      NoBlock(text);
    } else {
      var head, rest := FirstBlock(text);
      OnlyBlocksGo(rest);
      PrependPair(head, Pieces(rest));
      PrependCut(head, Pieces(rest));
      assert text == head[0].text + (head[1].text + rest);
    }
  }

  lemma NoBlock(text: string)
    requires IndexOf(text, BEGIN) < 0
    ensures Flatten(Pieces(text)) == text && Render(Pieces(text)) == Scrub(text) && WellCut(Pieces(text))
  {
    hide Contains;
    IndexFindsContained(text, BEGIN);
    assert Pieces(text) == [Kept(text)];
  }

  lemma PrependPair(head: seq<Piece>, tail: seq<Piece>)
    requires |head| == 2 && head[0].Kept? && head[1].Block?
    ensures Flatten(head + tail) == head[0].text + (head[1].text + Flatten(tail))
    ensures Render(head + tail) == head[0].text + MARKER + Render(tail)
  {
  }

  lemma PrependCut(head: seq<Piece>, tail: seq<Piece>)
    requires |head| == 2 && head[0].Kept? && head[1].Block? && WellCut(tail)
    requires !Contains(head[0].text, BEGIN) && IsBlock(head[1].text, Flatten(tail))
    ensures WellCut(head + tail)
  {
    hide Contains, IsBlock, Flatten;
    var ps := head + tail;
    forall i | 0 <= i < |ps|
      ensures i < 2 ==> ps[i] == head[i]
      ensures i >= 2 ==> ps[i] == tail[i - 2]
      ensures i >= 1 ==> ps[i + 1..] == tail[i - 1..]
    {
      RestOfPair(head, tail, i);
    }
  }

  lemma RestOfPair(head: seq<Piece>, tail: seq<Piece>, i: nat)
    requires |head| == 2 && i < |head + tail|
    ensures i >= 1 ==> (head + tail)[i + 1..] == tail[i - 1..]
  {
  }

  // ------------------------------------------------------------ the line pass

  function ToLower(s: string): (lower: string)
    ensures |lower| == |s|
  {
    seq(|s|, i requires 0 <= i < |s| => LowerChar(s[i]))
  }

  const CREDENTIAL_KEYS := [
    "authorization", "proxy-authorization", "x-api-key", "x-auth-token",
    "api_key", "apikey", "api-key", "secret", "client_secret", "password",
    "passwd", "pwd", "token", "access_token", "refresh_token", "id_token",
    "bearer", "private_key", "priv_key", "session", "cookie", "credential"]

  datatype Keyed = Unkeyed | Keyed(line: string)

  /** Everything after the first credential key that is used as one goes. */
  function RedactKeyedValue(line: string, keys: seq<string>): Keyed {
    if keys == [] then Unkeyed
    else
      var key, index := keys[0], IndexOf(ToLower(line), keys[0]);
      if index < 0 then RedactKeyedValue(line, keys[1..])
      else
        var upto, rest := line[..index + |key|], line[index + |key|..];
        var trimmed := TrimLeft(rest, " \t");
        if trimmed != "" && (trimmed[0] == ':' || trimmed[0] == '=') then
          Keyed(upto + trimmed[..1] + " " + MARKER)
        else if (key == "bearer" || key == "authorization") && rest != "" && (rest[0] == ' ' || rest[0] == '\t') && trimmed != "" then
          Keyed(upto + " " + MARKER)
        else RedactKeyedValue(line, keys[1..])
  }

  const SECRET_PREFIXES := [
    "sk-", "sk_", "pk_", "rk_", "ghp_", "gho_", "ghu_", "ghs_", "ghr_",
    "github_pat_", "xoxb-", "xoxp-", "xapp-", "glpat-", "AKIA", "ASIA", "eyJ"]

  const MIN_SECRET_LENGTH := 16

  predicate IsDigit(c: char) {
    '0' <= c <= '9'
  }

  predicate IsLetter(c: char) {
    'a' <= c <= 'z' || 'A' <= c <= 'Z'
  }

  predicate LooksSecret(word: string) {
    || (exists p :: p in SECRET_PREFIXES && p <= word && |word| > |p| + 6)
    || (|word| >= MIN_SECRET_LENGTH
        && (forall c :: c in word ==> IsDigit(c) || IsLetter(c) || c in "-_.+/=")
        && (exists c :: c in word && IsDigit(c))
        && (exists c :: c in word && IsLetter(c)))
  }

  function RedactWord(field: string): string {
    var trimmed := TrimRight(TrimLeft(field, ".,;:!?()[]{}\"'"), ".,;:!?()[]{}\"'");
    var at := IndexOf(field, trimmed);
    if trimmed == "" || !LooksSecret(trimmed) || at < 0 then field
    else field[..at] + MARKER + field[at + |trimmed|..]
  }

  function Split(s: string, sep: char): (parts: seq<string>)
    ensures parts != []
  {
    if s == "" then [""]
    else
      var rest := Split(s[1..], sep);
      if s[0] == sep then [""] + rest else [[s[0]] + rest[0]] + rest[1..]
  }

  function Join(parts: seq<string>, sep: char): string {
    if parts == [] then ""
    else if |parts| == 1 then parts[0]
    else parts[0] + [sep] + Join(parts[1..], sep)
  }

  function RedactWords(fields: seq<string>): (clean: seq<string>)
    ensures |clean| == |fields|
  {
    seq(|fields|, i requires 0 <= i < |fields| => RedactWord(fields[i]))
  }

  function RedactLine(line: string): string {
    match RedactKeyedValue(line, CREDENTIAL_KEYS)
    case Keyed(redacted) => redacted
    case Unkeyed => Join(RedactWords(Split(line, ' ')), ' ')
  }

  function RedactLines(lines: seq<string>): (clean: seq<string>)
    ensures |clean| == |lines|
  {
    seq(|lines|, i requires 0 <= i < |lines| => RedactLine(lines[i]))
  }

  lemma {:induction false} JoinSplit(s: string, sep: char)
    ensures Join(Split(s, sep), sep) == s
  {
    if s != "" {
      JoinSplit(s[1..], sep);
      var rest := Split(s[1..], sep);
      assert s == [s[0]] + s[1..];
      if s[0] != sep {
        assert ([[s[0]] + rest[0]] + rest[1..])[1..] == rest[1..];
      } else {
        assert ([""] + rest)[1..] == rest;
      }
    }
  }

  /** The word pass of the source: a copy is joined only if some word changed. */
  method RedactSecretLookingWords(line: string) returns (clean: string)
    ensures clean == Join(RedactWords(Split(line, ' ')), ' ')
  {
    var fields := Split(line, ' ');
    var words := fields;
    var changed := false;
    for i := 0 to |fields|
      invariant |words| == |fields|
      invariant forall k :: 0 <= k < |fields| ==> words[k] == if k < i then RedactWord(fields[k]) else fields[k]
      invariant !changed ==> words == fields
    {
      var redacted := RedactWord(fields[i]);
      if redacted != fields[i] {
        words := words[i := redacted];
        changed := true;
      }
    }
    assert words == RedactWords(fields);
    if !changed {
      JoinSplit(line, ' ');
      return line;
    }
    clean := Join(words, ' ');
  }

  function Redacted(text: string): string {
    if text == "" then "" else Join(RedactLines(Split(Scrub(text), '\n')), '\n')
  }

  method Redact(text: string) returns (clean: string)
    ensures clean == Redacted(text)
  {
    if text == "" {
      return text;
    }
    var scrubbed := RedactPEM(text);
    var lines := Split(scrubbed, '\n');
    var redacted := lines;
    for i := 0 to |lines|
      invariant |redacted| == |lines|
      invariant forall k :: 0 <= k < |lines| ==> redacted[k] == if k < i then RedactLine(lines[k]) else lines[k]
    {
      redacted := redacted[i := RedactLine(lines[i])];
    }
    assert redacted == RedactLines(lines);
    clean := Join(redacted, '\n');
  }

  // ----------------------------------- the line pass cannot make a key marker

  lemma KeyedIsClean(line: string, keys: seq<string>)
    requires !Contains(line, BEGIN)
    ensures RedactKeyedValue(line, keys).Keyed? ==> !Contains(RedactKeyedValue(line, keys).line, BEGIN)
  {
    hide IndexOf, Contains, ToLower, TrimLeft;
    if keys != [] {
      var key, index := keys[0], IndexOf(ToLower(line), keys[0]);
      KeyedIsClean(line, keys[1..]);
      if index >= 0 {
        var upto := line[..index + |key|];
        SliceOfClean(line, 0, index + |key|, BEGIN);
        NoDashIsClean(" " + MARKER);
        NoDashIsClean(MARKER);
        Separated(upto, ':', " " + MARKER, BEGIN);
        Separated(upto, '=', " " + MARKER, BEGIN);
        Separated(upto, ' ', MARKER, BEGIN);
        var trimmed := TrimLeft(line[index + |key|..], " \t");
        if trimmed != "" {
          assert trimmed[..1] == [trimmed[0]];
          assert upto + trimmed[..1] + " " + MARKER == upto + [trimmed[0]] + (" " + MARKER);
        }
      }
    }
  }

  lemma WordIsClean(field: string)
    requires !Contains(field, BEGIN)
    ensures !Contains(RedactWord(field), BEGIN)
  {
    hide IndexOf, Contains, LooksSecret, TrimLeft, TrimRight;
    var trimmed := TrimRight(TrimLeft(field, ".,;:!?()[]{}\"'"), ".,;:!?()[]{}\"'");
    var at := IndexOf(field, trimmed);
    if at >= 0 {
      SliceOfClean(field, 0, at, BEGIN);
      SliceOfClean(field, at + |trimmed|, |field|, BEGIN);
      assert field[0..at] == field[..at] && field[at + |trimmed|..|field|] == field[at + |trimmed|..];
      MarkerSeparates(field[..at], field[at + |trimmed|..]);
    }
  }

  lemma {:induction false} SplitIsClean(s: string, sep: char)
    requires !Contains(s, BEGIN)
    ensures forall i :: 0 <= i < |Split(s, sep)| ==> !Contains(Split(s, sep)[i], BEGIN)
  {
    SplitSlices(s, sep);
    forall i | 0 <= i < |Split(s, sep)|
      ensures !Contains(Split(s, sep)[i], BEGIN)
    {
      var lo, hi :| 0 <= lo <= hi <= |s| && Split(s, sep)[i] == s[lo..hi];
      SliceOfClean(s, lo, hi, BEGIN);
    }
  }

  ghost predicate IsSlice(s: string, part: string) {
    exists lo, hi :: 0 <= lo <= hi <= |s| && part == s[lo..hi]
  }

  lemma {:induction false} SplitSlices(s: string, sep: char)
    ensures Split(s, sep)[0] <= s
    ensures forall i :: 0 <= i < |Split(s, sep)| ==> IsSlice(s, Split(s, sep)[i])
  {
    if s == "" {
      assert s[0..0] == "";
    } else {
      SplitSlices(s[1..], sep);
      var rest, parts := Split(s[1..], sep), Split(s, sep);
      forall i | 0 <= i < |parts|
        ensures IsSlice(s, parts[i])
      {
        if i == 0 {
          assert parts[0] == s[0..|parts[0]|];
        } else {
          var k := if s[0] == sep then i - 1 else i;
          assert IsSlice(s[1..], rest[k]);
          var lo, hi :| 0 <= lo <= hi <= |s[1..]| && rest[k] == s[1..][lo..hi];
          assert rest[k] == s[lo + 1..hi + 1];
        }
      }
    }
  }

  lemma {:induction false} JoinIsClean(parts: seq<string>, sep: char)
    requires sep !in BEGIN && forall i :: 0 <= i < |parts| ==> !Contains(parts[i], BEGIN)
    ensures !Contains(Join(parts, sep), BEGIN)
  {
    hide Contains;
    if parts == [] {
      NoDashIsClean("");
    } else if |parts| > 1 {
      JoinIsClean(parts[1..], sep);
      Separated(parts[0], sep, Join(parts[1..], sep), BEGIN);
    }
  }

  lemma LineIsClean(line: string)
    requires !Contains(line, BEGIN)
    ensures !Contains(RedactLine(line), BEGIN)
  {
    hide Contains, RedactKeyedValue, Split, Join, RedactWord;
    KeyedIsClean(line, CREDENTIAL_KEYS);
    SplitIsClean(line, ' ');
    var fields := Split(line, ' ');
    forall i | 0 <= i < |fields|
      ensures !Contains(RedactWords(fields)[i], BEGIN)
    {
      WordIsClean(fields[i]);
    }
    JoinIsClean(RedactWords(fields), ' ');
  }

  /** No text that has been through Redact holds a key block marker. */
  lemma RedactIsClean(text: string)
    ensures !Contains(Redacted(text), BEGIN)
  {
    hide Contains, Scrub, Split, Join, RedactLine;
    NoDashIsClean("");
    ScrubRemovesBlocks(text);
    SplitIsClean(Scrub(text), '\n');
    var lines := Split(Scrub(text), '\n');
    forall i | 0 <= i < |lines|
      ensures !Contains(RedactLines(lines)[i], BEGIN)
    {
      LineIsClean(lines[i]);
    }
    JoinIsClean(RedactLines(lines), '\n');
  }
}
