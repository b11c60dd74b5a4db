/** Numbers written in a base up to 36 with the symbols `0-9a-z`. */
module Radix {
  import opened Powers

  function Symbol(d: nat): char
    requires d < 36
  {
    if d < 10 then '0' + d as char else 'a' + (d - 10) as char
  }

  function SymbolValue(c: char): nat {
    if '0' <= c <= '9' then (c - '0') as nat else if 'a' <= c <= 'z' then (c - 'a') as nat + 10 else 0
  }

  function Symbols(s: seq<nat>): string
    requires Digits(36, s)
  {
    seq(|s|, i requires 0 <= i < |s| => Symbol(s[i]))
  }

  ghost function Decode(base: nat, text: string): nat {
    Value(base, seq(|text|, i requires 0 <= i < |text| => SymbolValue(text[i])))
  }

  function Render(base: nat, v: nat): string
    requires 2 <= base <= 36
  {
    if v == 0 then "0" else
      MinimalValue(base, v);
      Symbols(Minimal(base, v))
  }

  /** A rendered number decodes to itself. */
  lemma RenderRoundTrip(base: nat, v: nat)
    requires 2 <= base <= 36
    ensures Decode(base, Render(base, v)) == v
  {
    var text := Render(base, v);
    var digits := seq(|text|, i requires 0 <= i < |text| => SymbolValue(text[i]));
    if v == 0 {
      assert digits == [0] && [0][..0] == [];
    } else {
      MinimalValue(base, v);
      assert digits == Minimal(base, v);
    }
  }

  lemma RenderInjective(base: nat, v: nat, w: nat)
    requires 2 <= base <= 36 && Render(base, v) == Render(base, w)
    ensures v == w
  {
    RenderRoundTrip(base, v);
    RenderRoundTrip(base, w);
  }
}
