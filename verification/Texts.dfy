/** Text as sequences of runes: white space, trimming and the size estimates of extraction/core.go. */
module Texts {

  /** White space as Go's unicode.IsSpace has it. */
  predicate IsSpace(c: char) {
    c in {'\t', '\n', '\U{0b}', '\U{0c}', '\r', ' ', '\U{85}', '\U{a0}', '\U{1680}', '\U{2028}', '\U{2029}', '\U{202f}',
      '\U{205f}', '\U{3000}'} ||
    '\U{2000}' <= c <= '\U{200a}'
  }

  function TrimLeft(s: string): string {
    if s != "" && IsSpace(s[0]) then TrimLeft(s[1..]) else s
  }

  function TrimRight(s: string): string {
    if s != "" && IsSpace(s[|s| - 1]) then TrimRight(s[..|s| - 1]) else s
  }

  function TrimSpace(s: string): string { TrimRight(TrimLeft(s)) }

  ghost predicate Blank(s: string) { forall i | 0 <= i < |s| :: IsSpace(s[i]) }

  /** No white space at either end. */
  ghost predicate Tight(s: string) { s != "" ==> !IsSpace(s[0]) && !IsSpace(s[|s| - 1]) }

  lemma {:induction false} TrimLeftIs(s: string) returns (lead: string)
    ensures Blank(lead) && s == lead + TrimLeft(s) && (TrimLeft(s) != "" ==> !IsSpace(TrimLeft(s)[0]))
  {
    if s != "" && IsSpace(s[0]) {
      lead := TrimLeftIs(s[1..]);
      lead := [s[0]] + lead;
    } else {
      lead := "";
    }
  }

  lemma {:induction false} TrimRightIs(s: string) returns (trail: string)
    ensures Blank(trail) && s == TrimRight(s) + trail
    ensures TrimRight(s) != "" ==> !IsSpace(TrimRight(s)[|TrimRight(s)| - 1]) && TrimRight(s)[0] == s[0]
  {
    if s != "" && IsSpace(s[|s| - 1]) {
      trail := TrimRightIs(s[..|s| - 1]);
      trail := trail + [s[|s| - 1]];
    } else {
      trail := "";
    }
  }

  /** Trimming takes off all white space at both ends and nothing else. */
  lemma TrimSpaceIs(s: string) returns (lead: string, trail: string)
    ensures Blank(lead) && Blank(trail) && s == lead + TrimSpace(s) + trail && Tight(TrimSpace(s))
  {
    lead := TrimLeftIs(s);
    trail := TrimRightIs(TrimLeft(s));
  }

  /** The text without any white space. */
  function Squeeze(s: string): string {
    if s == "" then ""
    else if IsSpace(s[|s| - 1]) then Squeeze(s[..|s| - 1])
    else Squeeze(s[..|s| - 1]) + [s[|s| - 1]]
  }

  lemma {:induction false} SqueezeConcat(a: string, b: string)
    ensures Squeeze(a + b) == Squeeze(a) + Squeeze(b)
  {
    if b == "" {
      assert a + b == a;
    } else {
      assert (a + b)[..|a + b| - 1] == a + b[..|b| - 1];
      SqueezeConcat(a, b[..|b| - 1]);
    }
  }

  lemma {:induction false} TrimLeftSqueeze(s: string)
    ensures Squeeze(TrimLeft(s)) == Squeeze(s) && |TrimLeft(s)| <= |s|
  {
    if s != "" && IsSpace(s[0]) {
      TrimLeftSqueeze(s[1..]);
      assert s == [s[0]] + s[1..];
      SqueezeConcat([s[0]], s[1..]);
      assert [s[0]][..0] == "";
    }
  }

  lemma {:induction false} TrimRightSqueeze(s: string)
    ensures Squeeze(TrimRight(s)) == Squeeze(s) && |TrimRight(s)| <= |s|
  {
    if s != "" && IsSpace(s[|s| - 1]) { TrimRightSqueeze(s[..|s| - 1]); }
  }

  /** Trimming removes nothing but white space. */
  lemma {:induction false} TrimSqueeze(s: string)
    ensures Squeeze(TrimSpace(s)) == Squeeze(s) && |TrimSpace(s)| <= |s|
  {
    TrimLeftSqueeze(s);
    TrimRightSqueeze(TrimLeft(s));
  }

  /** Bytes of a rune in UTF-8. */
  function Utf8Width(c: char): nat {
    if c < '\U{80}' then 1 else if c < '\U{800}' then 2 else if c < '\U{10000}' then 3 else 4
  }

  function PowerOfTwo(n: nat): nat { if n == 0 then 1 else 2 * PowerOfTwo(n - 1) }

  /** The width is the least number of bytes with room for the code point: 7 bits in one byte, 5 w + 1 in w bytes. */
  lemma WidthIsLeast(c: char, w: nat)
    requires 1 <= w <= 4
    ensures Utf8Width(c) <= w <==> c as int < PowerOfTwo(if w == 1 then 7 else 5 * w + 1)
  {
    assert PowerOfTwo(7) == 0x80;
    assert PowerOfTwo(11) == 0x800;
    assert PowerOfTwo(16) == 0x10000;
    assert PowerOfTwo(21) == 0x200000;
  }

  function Utf8Length(s: string): nat {
    if s == "" then 0 else Utf8Length(s[..|s| - 1]) + Utf8Width(s[|s| - 1])
  }

  /** The token estimate: runes, or a quarter of the bytes if that is more. */
  function EstimateTokenCount(value: string): nat {
    var trimmed := TrimSpace(value);
    if trimmed == "" then 0
    else if |trimmed| > (Utf8Length(trimmed) + 3) / 4 then |trimmed| else (Utf8Length(trimmed) + 3) / 4
  }

  /** The estimate is the least number that is no less than the runes and no less than a quarter of the bytes of the
      trimmed text. */
  lemma EstimateIsLeast(value: string, n: nat)
    ensures EstimateTokenCount(value) <= n <==> |TrimSpace(value)| <= n && Utf8Length(TrimSpace(value)) <= 4 * n
  {
  }
}
