/** What the line pass of internal/ai/ai.go removes and what it keeps, line by
  line and word by word. */
module RedactionLines {
  import opened Texts
  import opened Redaction

  // ------------------------------------------------------ splitting and joining

  lemma {:induction false} SplitHasNoSeparator(s: string, sep: char)
    ensures forall part :: part in Split(s, sep) ==> sep !in part
  {
    if s != "" {
      SplitHasNoSeparator(s[1..], sep);
      var rest := Split(s[1..], sep);
      assert rest[0] in rest;
      assert forall part :: part in rest[1..] ==> part in rest;
    }
  }

  lemma {:induction false} SplitFirst(head: string, tail: string, sep: char)
    requires sep !in head
    ensures Split(head, sep) == [head]
    ensures Split(head + [sep] + tail, sep) == [head] + Split(tail, sep)
  {
    if head == "" {
      assert head + [sep] + tail == [sep] + tail;
      assert ([sep] + tail)[1..] == tail;
    } else {
      assert (head + [sep] + tail)[1..] == head[1..] + [sep] + tail;
      SplitFirst(head[1..], tail, sep);
      assert [head[0]] + head[1..] == head;
    }
  }

  lemma {:induction false} SplitJoin(parts: seq<string>, sep: char)
    requires parts != [] && forall part :: part in parts ==> sep !in part
    ensures Split(Join(parts, sep), sep) == parts
  {
    assert parts[0] in parts && parts == [parts[0]] + parts[1..];
    if |parts| == 1 {
      SplitFirst(parts[0], "", sep);
    } else {
      forall part | part in parts[1..]
        ensures sep !in part
      {
        assert part in parts;
      }
      SplitJoin(parts[1..], sep);
      SplitFirst(parts[0], Join(parts[1..], sep), sep);
    }
  }

  lemma {:induction false} JoinHasOnly(parts: seq<string>, sep: char, c: char)
    requires c != sep && forall part :: part in parts ==> c !in part
    ensures c !in Join(parts, sep)
  {
    if |parts| > 0 {
      assert parts[0] in parts;
      forall part | part in parts[1..]
        ensures c !in part
      {
        assert part in parts;
      }
      JoinHasOnly(parts[1..], sep, c);
    }
  }

  lemma {:induction false} PartHasNo(s: string, sep: char, c: char)
    requires c !in s
    ensures forall part :: part in Split(s, sep) ==> c !in part
  {
    SplitSlices(s, sep);
    forall part | part in Split(s, sep)
      ensures c !in part
    {
      var k :| 0 <= k < |Split(s, sep)| && Split(s, sep)[k] == part;
      assert IsSlice(s, Split(s, sep)[k]);
    }
  }

  // -------------------------------------------------------------- the word pass

  const PUNCTUATION := ".,;:!?()[]{}\"'"

  /** A word without the punctuation around it. */
  function Bare(field: string): string {
    TrimRight(TrimLeft(field, PUNCTUATION), PUNCTUATION)
  }

  lemma {:induction false} TrimmedOffLeft(s: string, cutset: string, i: nat)
    requires i < |s| - |TrimLeft(s, cutset)|
    ensures s[i] in cutset
  {
    if i > 0 {
      TrimmedOffLeft(s[1..], cutset, i - 1);
    }
  }

  lemma {:induction false} TrimmedLeft(s: string, cutset: string)
    ensures TrimLeft(s, cutset) != "" ==> TrimLeft(s, cutset)[0] !in cutset
    ensures forall i :: 0 <= i < |s| - |TrimLeft(s, cutset)| ==> s[i] in cutset
  {
    if s != "" && s[0] in cutset {
      TrimmedLeft(s[1..], cutset);
    }
    hide TrimLeft;
    forall i | 0 <= i < |s| - |TrimLeft(s, cutset)|
      ensures s[i] in cutset
    {
      TrimmedOffLeft(s, cutset, i);
    }
  }

  lemma {:induction false} TrimmedOffRight(s: string, cutset: string, i: nat)
    requires |TrimRight(s, cutset)| <= i < |s|
    ensures s[i] in cutset
  {
    if i < |s| - 1 {
      TrimmedOffRight(s[..|s| - 1], cutset, i);
    }
  }

  lemma {:induction false} TrimmedRight(s: string, cutset: string)
    ensures TrimRight(s, cutset) != "" ==> TrimRight(s, cutset)[|TrimRight(s, cutset)| - 1] !in cutset
    ensures forall i :: |TrimRight(s, cutset)| <= i < |s| ==> s[i] in cutset
  {
    if s != "" && s[|s| - 1] in cutset {
      TrimmedRight(s[..|s| - 1], cutset);
    }
    hide TrimRight;
    forall i | |TrimRight(s, cutset)| <= i < |s|
      ensures s[i] in cutset
    {
      TrimmedOffRight(s, cutset, i);
    }
  }

  /** A word is its bare part between punctuation. */
  lemma BareParts(field: string) returns (pre: string, post: string)
    requires Bare(field) != ""
    ensures field == pre + Bare(field) + post
    ensures (forall i :: 0 <= i < |pre| ==> pre[i] in PUNCTUATION) && (forall i :: 0 <= i < |post| ==> post[i] in PUNCTUATION)
    ensures Bare(field)[0] !in PUNCTUATION && Bare(field)[|Bare(field)| - 1] !in PUNCTUATION
  {
    TrimmedLeft(field, PUNCTUATION);
    var left := TrimLeft(field, PUNCTUATION);
    TrimmedRight(left, PUNCTUATION);
    hide TrimLeft, TrimRight;
    pre, post := field[..|field| - |left|], left[|Bare(field)|..];
  }

  lemma {:induction false} TrimLeftSkips(pre: string, s: string, cutset: string)
    requires (forall i :: 0 <= i < |pre| ==> pre[i] in cutset) && s != "" && s[0] !in cutset
    ensures TrimLeft(pre + s, cutset) == s
  {
    if pre == "" {
      assert pre + s == s;
    } else {
      assert (pre + s)[1..] == pre[1..] + s;
      TrimLeftSkips(pre[1..], s, cutset);
    }
  }

  lemma {:induction false} TrimRightSkips(s: string, post: string, cutset: string)
    requires (forall i :: 0 <= i < |post| ==> post[i] in cutset) && s != "" && s[|s| - 1] !in cutset
    ensures TrimRight(s + post, cutset) == s
  {
    if post == "" {
      assert s + post == s;
    } else {
      assert (s + post)[..|s + post| - 1] == s + post[..|post| - 1];
      TrimRightSkips(s, post[..|post| - 1], cutset);
    }
  }

  lemma BareBetween(pre: string, core: string, post: string)
    requires (forall i :: 0 <= i < |pre| ==> pre[i] in PUNCTUATION) && (forall i :: 0 <= i < |post| ==> post[i] in PUNCTUATION)
    requires core != "" && core[0] !in PUNCTUATION && core[|core| - 1] !in PUNCTUATION
    ensures Bare(pre + core + post) == core
  {
    assert pre + core + post == pre + (core + post);
    TrimLeftSkips(pre, core + post, PUNCTUATION);
    TrimRightSkips(core, post, PUNCTUATION);
  }

  /** The bare part stands where it was trimmed out: nothing before it is like it. */
  lemma BareIsFirst(field: string, pre: string, post: string)
    requires Bare(field) != "" && field == pre + Bare(field) + post && Bare(field)[0] !in PUNCTUATION
    requires forall i :: 0 <= i < |pre| ==> pre[i] in PUNCTUATION
    ensures IndexOf(field, Bare(field)) == |pre|
  {
    var core := Bare(field);
    assert OccursAt(field, core, |pre|);
    var at := IndexOf(field, core);
    if at < |pre| {
      assert field[at] in PUNCTUATION;
      OccurrenceChar(field, core, at, 0);
    }
  }

  lemma NoPrefixStartsWithR(p: string)
    requires p in SECRET_PREFIXES
    ensures p != "" && p[0] != 'R'
  {
  }

  lemma MarkerIsNoSecret()
    ensures !LooksSecret("REDACTED")
  {
    hide SECRET_PREFIXES;
    forall p | p in SECRET_PREFIXES
      ensures !(p <= "REDACTED")
    {
      NoPrefixStartsWithR(p);
    }
  }

  /** What becomes of a word: its bare part goes if it looks secret, and the
    punctuation around it stays; any other word stays as it is. */
  lemma WordPass(field: string)
    ensures !LooksSecret(Bare(field)) ==> RedactWord(field) == field
    ensures LooksSecret(Bare(field)) && Bare(field) != "" ==>
              exists pre, post :: field == pre + Bare(field) + post && RedactWord(field) == pre + MARKER + post
    ensures !LooksSecret(Bare(RedactWord(field))) || Bare(RedactWord(field)) == ""
  {
    hide LooksSecret, IndexOf, TrimLeft, TrimRight;
    if LooksSecret(Bare(field)) && Bare(field) != "" {
      var pre, post := BareParts(field);
      BareIsFirst(field, pre, post);
      hide Bare;
      assert field[..|pre|] == pre && field[|pre| + |Bare(field)|..] == post;
      assert RedactWord(field) == pre + MARKER + post;
      MarkedIsBare(pre, post);
      MarkerIsNoSecret();
    }
  }

  lemma MarkedIsBare(pre: string, post: string)
    requires (forall i :: 0 <= i < |pre| ==> pre[i] in PUNCTUATION) && (forall i :: 0 <= i < |post| ==> post[i] in PUNCTUATION)
    ensures Bare(pre + MARKER + post) == "REDACTED"
  {
    hide Bare;
    assert pre + MARKER + post == (pre + "[") + "REDACTED" + ("]" + post);
    BareBetween(pre + "[", "REDACTED", "]" + post);
  }

  /** A word looks secret if it has seven characters or more after a known prefix,
    or is sixteen or more of letters, digits and `-_.+/=` with some of both. */
  lemma LooksSecretExactlyWhen(word: string)
    ensures LooksSecret(word) <==>
              || (exists p :: p in SECRET_PREFIXES && p <= word && |word| >= |p| + 7)
              || (|word| >= 16
                  && (forall c :: c in word ==> '0' <= c <= '9' || 'a' <= c <= 'z' || 'A' <= c <= 'Z' || c in "-_.+/=")
                  && (exists c :: c in word && '0' <= c <= '9')
                  && (exists c :: c in word && ('a' <= c <= 'z' || 'A' <= c <= 'Z')))
  {
    hide SECRET_PREFIXES;
    assert forall c :: IsDigit(c) <==> '0' <= c <= '9';
    assert forall c :: IsLetter(c) <==> 'a' <= c <= 'z' || 'A' <= c <= 'Z';
  }

  predicate SecretWord(field: string) {
    Bare(field) != "" && LooksSecret(Bare(field))
  }

  lemma WordHasNo(field: string, c: char)
    requires c !in field && c !in MARKER
    ensures c !in RedactWord(field)
  {
    hide IndexOf, LooksSecret, TrimLeft, TrimRight;
  }

  function WordPassed(line: string): string {
    Join(RedactWords(Split(line, ' ')), ' ')
  }

  /** The word pass works word by word: as many words come out, those that look
    secret without their secret, the others as they were, and none that comes
    out looks secret. */
  lemma WordByWord(line: string)
    ensures var words, clean := Split(line, ' '), Split(WordPassed(line), ' ');
            && |clean| == |words|
            && (forall i :: 0 <= i < |words| ==> clean[i] == RedactWord(words[i]))
            && (forall i :: 0 <= i < |words| && !SecretWord(words[i]) ==> clean[i] == words[i])
            && (forall i :: 0 <= i < |words| ==> !SecretWord(clean[i]))
    ensures (forall word :: word in Split(line, ' ') ==> !SecretWord(word)) ==> WordPassed(line) == line
  {
    hide RedactWord, Bare, LooksSecret, Split, Join;
    var words := Split(line, ' ');
    SplitHasNoSeparator(line, ' ');
    forall i | 0 <= i < |words|
      ensures ' ' !in RedactWord(words[i])
      ensures !SecretWord(words[i]) ==> RedactWord(words[i]) == words[i]
      ensures !SecretWord(RedactWord(words[i]))
    {
      assert words[i] in words;
      WordHasNo(words[i], ' ');
      WordPass(words[i]);
      EmptyIsNoSecret();
    }
    SplitJoin(RedactWords(words), ' ');
    if forall word :: word in words ==> !SecretWord(word) {
      assert RedactWords(words) == words;
      JoinSplit(line, ' ');
    }
  }

  lemma EmptyIsNoSecret()
    ensures !LooksSecret("")
  {
  }

  // --------------------------------------------------------------- the key pass

  /** The key stands at `i`, and a value follows it: after `:` or `=`, or, for the
    two keys of the Authorization header, after a blank. */
  predicate UsedAt(line: string, key: string, i: int) {
    OccursAt(ToLower(line), key, i) &&
    var rest := line[i + |key|..];
    var trimmed := TrimLeft(rest, " \t");
    trimmed != "" &&
    (trimmed[0] == ':' || trimmed[0] == '=' || (key in ["bearer", "authorization"] && (rest[0] == ' ' || rest[0] == '\t')))
  }

  /** The first place the key stands at is such a use. */
  predicate FirstIsUsed(line: string, key: string) {
    UsedAt(line, key, IndexOf(ToLower(line), key))
  }

  function EndOfFirst(line: string, key: string): int {
    IndexOf(ToLower(line), key) + |key|
  }

  const TAILS := [": [REDACTED]", "= [REDACTED]", " [REDACTED]"]

  /** The pass looks at the first place each key stands at, and at the keys in the
    order of the list: of the first that is used there, everything after goes. */
  lemma {:induction false} KeyPass(line: string, keys: seq<string>)
    ensures match RedactKeyedValue(line, keys)
            case Unkeyed => forall n :: 0 <= n < |keys| ==> !FirstIsUsed(line, keys[n])
            case Keyed(clean) =>
              exists n ::
                && 0 <= n < |keys| && FirstIsUsed(line, keys[n])
                && (forall m :: 0 <= m < n ==> !FirstIsUsed(line, keys[m]))
                && CutAt(line, EndOfFirst(line, keys[n]), clean)
  {
    hide IndexOf, ToLower, TrimLeft;
    if keys != [] {
      KeyPass(line, keys[1..]);
      if FirstIsUsed(line, keys[0]) {
        FirstKeyCuts(line, keys);
      } else {
        FirstKeyPassed(line, keys);
        if RedactKeyedValue(line, keys).Keyed? {
          var n :| 0 <= n < |keys| - 1 && FirstIsUsed(line, keys[1..][n])
                   && (forall m :: 0 <= m < n ==> !FirstIsUsed(line, keys[1..][m]))
                   && CutAt(line, EndOfFirst(line, keys[1..][n]), RedactKeyedValue(line, keys).line);
          forall m | 0 <= m < n + 1
            ensures !FirstIsUsed(line, keys[m])
          {
            assert m > 0 ==> keys[m] == keys[1..][m - 1];
          }
          assert keys[n + 1] == keys[1..][n];
        } else {
          forall n | 0 <= n < |keys|
            ensures !FirstIsUsed(line, keys[n])
          {
            assert n > 0 ==> keys[n] == keys[1..][n - 1];
          }
        }
      }
    }
  }

  /** Nothing of the line is kept from `cut` on. */
  ghost predicate CutAt(line: string, cut: int, clean: string) {
    0 <= cut <= |line| && exists tail :: tail in TAILS && clean == line[..cut] + tail
  }

  lemma MarkedCuts(line: string, cut: int)
    requires 0 <= cut <= |line|
    ensures CutAt(line, cut, line[..cut] + ":" + " " + MARKER)
    ensures CutAt(line, cut, line[..cut] + "=" + " " + MARKER)
    ensures CutAt(line, cut, line[..cut] + " " + MARKER)
  {
    assert line[..cut] + ":" + " " + MARKER == line[..cut] + TAILS[0];
    assert line[..cut] + "=" + " " + MARKER == line[..cut] + TAILS[1];
    assert line[..cut] + " " + MARKER == line[..cut] + TAILS[2];
  }

  lemma FirstKeyCuts(line: string, keys: seq<string>)
    requires keys != [] && FirstIsUsed(line, keys[0])
    ensures RedactKeyedValue(line, keys).Keyed?
    ensures CutAt(line, EndOfFirst(line, keys[0]), RedactKeyedValue(line, keys).line)
  {
    hide IndexOf, ToLower, TrimLeft, MARKER, CutAt;
    var cut := EndOfFirst(line, keys[0]);
    var trimmed := TrimLeft(line[cut..], " \t");
    MarkedCuts(line, cut);
    assert trimmed[0] == ':' ==> trimmed[..1] == ":";
    assert trimmed[0] == '=' ==> trimmed[..1] == "=";
  }

  lemma FirstKeyPassed(line: string, keys: seq<string>)
    requires keys != [] && !FirstIsUsed(line, keys[0])
    ensures RedactKeyedValue(line, keys) == RedactKeyedValue(line, keys[1..])
  {
    hide ToLower, TrimLeft;
  }

  /** The key that decides: the first of the list whose first place is a use. */
  ghost predicate Decides(line: string, n: nat)
    requires n < |CREDENTIAL_KEYS|
  {
    FirstIsUsed(line, CREDENTIAL_KEYS[n]) && forall m :: 0 <= m < n ==> !FirstIsUsed(line, CREDENTIAL_KEYS[m])
  }

  lemma NoKeyEndsInASeparator(n: nat)
    requires n < |CREDENTIAL_KEYS|
    ensures var key := CREDENTIAL_KEYS[n]; key != "" && key[|key| - 1] != ':' && key[|key| - 1] != '='
  {
  }

  lemma EarlierCut(line: string, cut: int, end: int, a: string, b: string)
    requires 0 <= cut < end <= |line| && a in TAILS && b in TAILS && line[..cut] + a == line[..end] + b
    ensures line[end - 1] == ':' || line[end - 1] == '='
  {
    assert |a| == |b| + (end - cut) && |b| >= 11 && |a| <= 12;
    assert (line[..cut] + a)[cut] == a[0] && (line[..end] + b)[cut] == line[cut];
  }

  lemma LastOfKey(line: string, n: nat)
    requires n < |CREDENTIAL_KEYS| && FirstIsUsed(line, CREDENTIAL_KEYS[n])
    ensures var end := EndOfFirst(line, CREDENTIAL_KEYS[n]);
            0 < end <= |line| && line[end - 1] != ':' && line[end - 1] != '='
  {
    hide CREDENTIAL_KEYS, IndexOf, TrimLeft;
    var key, i := CREDENTIAL_KEYS[n], IndexOf(ToLower(line), CREDENTIAL_KEYS[n]);
    NoKeyEndsInASeparator(n);
    OccurrenceChar(ToLower(line), key, i, |key| - 1);
  }

  /** A cut at the end of a key is told from any earlier one by what is left. */
  lemma CutsDiffer(line: string, n: nat, cut: int, clean: string)
    requires n < |CREDENTIAL_KEYS| && FirstIsUsed(line, CREDENTIAL_KEYS[n])
    requires CutAt(line, EndOfFirst(line, CREDENTIAL_KEYS[n]), clean) && CutAt(line, cut, clean)
    ensures EndOfFirst(line, CREDENTIAL_KEYS[n]) <= cut
  {
    hide CREDENTIAL_KEYS, FirstIsUsed, EndOfFirst, TAILS;
    LastOfKey(line, n);
    var end := EndOfFirst(line, CREDENTIAL_KEYS[n]);
    var a :| a in TAILS && clean == line[..cut] + a;
    var b :| b in TAILS && clean == line[..end] + b;
    if cut < end {
      EarlierCut(line, cut, end, a, b);
    }
  }

  /** Where a key is used, the value after it goes if and only if the key that
    decides ends no later: its first place is the one looked at, whichever key
    stands first in the line. */
  lemma ValueGoesExactlyWhen(line: string, n: nat, i: int)
    requires n < |CREDENTIAL_KEYS| && UsedAt(line, CREDENTIAL_KEYS[n], i)
    ensures (exists cut ::
               && cut <= i + |CREDENTIAL_KEYS[n]|
               && RedactKeyedValue(line, CREDENTIAL_KEYS).Keyed?
               && CutAt(line, cut, RedactKeyedValue(line, CREDENTIAL_KEYS).line)) <==>
            exists m ::
              && 0 <= m < |CREDENTIAL_KEYS| && Decides(line, m)
              && EndOfFirst(line, CREDENTIAL_KEYS[m]) <= i + |CREDENTIAL_KEYS[n]|
  {
    hide CREDENTIAL_KEYS, FirstIsUsed, RedactKeyedValue, EndOfFirst, CutAt, UsedAt;
    var keys := CREDENTIAL_KEYS;
    KeyPass(line, keys);
    if RedactKeyedValue(line, keys).Keyed? {
      var clean := RedactKeyedValue(line, keys).line;
      var m :| 0 <= m < |keys| && FirstIsUsed(line, keys[m]) && (forall k :: 0 <= k < m ==> !FirstIsUsed(line, keys[k]))
               && CutAt(line, EndOfFirst(line, keys[m]), clean);
      assert Decides(line, m);
      forall cut | CutAt(line, cut, clean)
        ensures EndOfFirst(line, keys[m]) <= cut
      {
        CutsDiffer(line, m, cut, clean);
      }
      assert forall k :: 0 <= k < |keys| && Decides(line, k) ==> k == m;
    }
  }

  lemma FoundHasChars(text: string, pattern: string, c: char)
    requires c in pattern
    ensures IndexOf(text, pattern) >= 0 ==> c in text
  {
    var i := IndexOf(text, pattern);
    if i >= 0 {
      var k :| 0 <= k < |pattern| && pattern[k] == c;
      OccurrenceChar(text, pattern, i, k);
    }
  }

  const TWO_SECRETS := "pwd=1 secret=2"

  lemma TwoSecretsAreLower()
    ensures ToLower(TWO_SECRETS) == TWO_SECRETS
  {
  }

  lemma AbsentIsUnused(line: string, key: string)
    requires IndexOf(ToLower(line), key) < 0
    ensures !FirstIsUsed(line, key)
  {
  }

  lemma SeparatedIsUsed(line: string, key: string, i: int)
    requires OccursAt(ToLower(line), key, i) && i + |key| < |line| && (line[i + |key|] == ':' || line[i + |key|] == '=')
    ensures UsedAt(line, key, i)
  {
    hide ToLower;
    assert line[i + |key|..][0] == line[i + |key|];
  }

  lemma MissingLetter(n: nat) returns (c: char)
    requires n < 7
    ensures c in CREDENTIAL_KEYS[n] && c !in TWO_SECRETS
  {
    c := if n == 0 then 'u' else if n <= 3 then 'x' else 'i';
  }

  lemma EarlierKeysAreAbsent(n: nat)
    requires n < 7 < |CREDENTIAL_KEYS|
    ensures !FirstIsUsed(TWO_SECRETS, CREDENTIAL_KEYS[n])
  {
    var c := MissingLetter(n);
    TwoSecretsAreLower();
    hide IndexOf, ToLower, FirstIsUsed, CREDENTIAL_KEYS, TWO_SECRETS;
    FoundHasChars(TWO_SECRETS, CREDENTIAL_KEYS[n], c);
    AbsentIsUnused(TWO_SECRETS, CREDENTIAL_KEYS[n]);
  }

  lemma WhereSecretIs()
    ensures IndexOf(TWO_SECRETS, "secret") == 6
  {
    var i := IndexOf(TWO_SECRETS, "secret");
    hide IndexOf;
    assert OccursAt(TWO_SECRETS, "secret", 6);
    OccurrenceChar(TWO_SECRETS, "secret", i, 1);
  }

  lemma SecretIsUsed()
    ensures FirstIsUsed(TWO_SECRETS, "secret") && EndOfFirst(TWO_SECRETS, "secret") == 12
  {
    TwoSecretsAreLower();
    WhereSecretIs();
    assert TWO_SECRETS[12] == '=';
    hide IndexOf, ToLower, UsedAt, TWO_SECRETS;
    SeparatedIsUsed(TWO_SECRETS, "secret", 6);
  }

  lemma PwdIsUsed()
    ensures UsedAt(TWO_SECRETS, "pwd", 0)
  {
    TwoSecretsAreLower();
    assert OccursAt(TWO_SECRETS, "pwd", 0) && TWO_SECRETS[3] == '=';
    hide ToLower, UsedAt, TWO_SECRETS;
    SeparatedIsUsed(TWO_SECRETS, "pwd", 0);
  }

  lemma SecretDecides()
    ensures |CREDENTIAL_KEYS| > 11 && CREDENTIAL_KEYS[7] == "secret" && "pwd" in CREDENTIAL_KEYS
    ensures Decides(TWO_SECRETS, 7)
  {
    SecretIsUsed();
    hide FirstIsUsed;
    forall m | 0 <= m < 7
      ensures !FirstIsUsed(TWO_SECRETS, CREDENTIAL_KEYS[m])
    {
      EarlierKeysAreAbsent(m);
    }
    assert CREDENTIAL_KEYS[7] == "secret" && CREDENTIAL_KEYS[11] == "pwd";
  }

  /** Everything after a used key is said to go, yet a value can stay: when a key
    listed earlier is used further right. */
  lemma ValueCanStay()
    ensures "pwd" in CREDENTIAL_KEYS && UsedAt(TWO_SECRETS, "pwd", 0)
    ensures "pwd=1 secret" <= RedactLine(TWO_SECRETS)
  {
    PwdIsUsed();
    SecretIsUsed();
    SecretDecides();
    hide CREDENTIAL_KEYS, FirstIsUsed, RedactKeyedValue, EndOfFirst, UsedAt;
    KeyPass(TWO_SECRETS, CREDENTIAL_KEYS);
    assert FirstIsUsed(TWO_SECRETS, CREDENTIAL_KEYS[7]);
    var n :| 0 <= n < |CREDENTIAL_KEYS| && FirstIsUsed(TWO_SECRETS, CREDENTIAL_KEYS[n])
             && (forall m :: 0 <= m < n ==> !FirstIsUsed(TWO_SECRETS, CREDENTIAL_KEYS[m]))
             && CutAt(TWO_SECRETS, EndOfFirst(TWO_SECRETS, CREDENTIAL_KEYS[n]), RedactKeyedValue(TWO_SECRETS, CREDENTIAL_KEYS).line);
    assert n == 7;
    assert TWO_SECRETS[..12] == "pwd=1 secret";
  }

  // ------------------------------------------------------------------ the lines

  lemma WordsHaveNo(line: string, c: char)
    requires c !in line && c != ' ' && c !in MARKER
    ensures c !in WordPassed(line)
  {
    hide RedactWord, Split, Join, MARKER;
    PartHasNo(line, ' ', c);
    var words := Split(line, ' ');
    forall part | part in RedactWords(words)
      ensures c !in part
    {
      var i :| 0 <= i < |words| && part == RedactWord(words[i]);
      assert words[i] in words;
      WordHasNo(words[i], c);
    }
    JoinHasOnly(RedactWords(words), ' ', c);
  }

  lemma LineHasNo(line: string)
    requires '\n' !in line
    ensures '\n' !in RedactLine(line)
  {
    hide IndexOf, ToLower, RedactKeyedValue, CREDENTIAL_KEYS;
    KeyPass(line, CREDENTIAL_KEYS);
    WordsHaveNo(line, '\n');
    TailsHaveNo();
    hide Split, Join, RedactWords, TAILS;
  }

  lemma TailsHaveNo()
    ensures forall tail :: tail in TAILS ==> '\n' !in tail
  {
  }

  /** After the blocks are gone every line is treated by itself: as many lines come
    out, in order, and as many as went in when there was no block. */
  lemma LineByLine(text: string)
    ensures var lines, clean := Split(Scrub(text), '\n'), Split(Redacted(text), '\n');
            && |clean| == |lines|
            && forall i :: 0 <= i < |lines| ==> clean[i] == RedactLine(lines[i])
    ensures !Contains(text, BEGIN) ==> |Split(Redacted(text), '\n')| == |Split(text, '\n')|
  {
    hide RedactLine, Scrub, Contains;
    CleanTextIsKept(text);
    if text == "" {
      NothingStaysNothing();
      assert !Contains("", BEGIN) by { NoDashIsClean(""); }
    } else {
      hide Split, Join;
      var lines := Split(Scrub(text), '\n');
      SplitHasNoSeparator(Scrub(text), '\n');
      forall part | part in RedactLines(lines)
        ensures '\n' !in part
      {
        var i :| 0 <= i < |lines| && part == RedactLine(lines[i]);
        assert lines[i] in lines;
        LineHasNo(lines[i]);
      }
      SplitJoin(RedactLines(lines), '\n');
    }
  }

  lemma NothingIsUsed(key: string)
    ensures !FirstIsUsed("", key)
  {
    hide IndexOf, ToLower;
  }

  lemma NothingStaysNothing()
    ensures RedactLine("") == ""
  {
    hide CREDENTIAL_KEYS, RedactLine, FirstIsUsed, SecretWord;
    forall n | 0 <= n < |CREDENTIAL_KEYS|
      ensures !FirstIsUsed("", CREDENTIAL_KEYS[n])
    {
      NothingIsUsed(CREDENTIAL_KEYS[n]);
    }
    OneEmptyWord();
    PlainLineIsKept("");
  }

  lemma OneEmptyWord()
    ensures Split("", ' ') == [""] && !SecretWord("")
  {
    EmptyIsNoSecret();
  }

  /** A line none of whose keys is used and none of whose words looks secret is
    left as it is. */
  lemma PlainLineIsKept(line: string)
    requires forall n :: 0 <= n < |CREDENTIAL_KEYS| ==> !FirstIsUsed(line, CREDENTIAL_KEYS[n])
    requires forall word :: word in Split(line, ' ') ==> !SecretWord(word)
    ensures RedactLine(line) == line
  {
    hide FirstIsUsed, SecretWord, Split, CREDENTIAL_KEYS, RedactKeyedValue;
    KeyPass(line, CREDENTIAL_KEYS);
    WordByWord(line);
  }
}
