/** The few string operations the modelled code shares: ASCII folding and
  trimming a set of characters off the ends. */
module Texts {
  const SPACES := " \t\n\r\U{0B}\U{0C}"

  function LowerChar(c: char): char {
    if 'A' <= c <= 'Z' then c - 'A' + 'a' else c
  }

  function TrimLeft(s: string, cutset: string): (t: string)
    ensures |t| <= |s| && t == s[|s| - |t|..]
  {
    if s != "" && s[0] in cutset then TrimLeft(s[1..], cutset) else s
  }

  function TrimRight(s: string, cutset: string): (t: string)
    ensures |t| <= |s| && t == s[..|t|]
  {
    if s != "" && s[|s| - 1] in cutset then TrimRight(s[..|s| - 1], cutset) else s
  }

  function TrimSpace(s: string): string {
    TrimRight(TrimLeft(s, SPACES), SPACES)
  }
}
