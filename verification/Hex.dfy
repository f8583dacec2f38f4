/** Hexadecimal digits in both cases. */
module Hex {
  import opened Wrappers

  function LowerDigit(d: nat): (c: char)
    requires d < 16
  {
    if d < 10 then (48 + d) as char else (87 + d) as char
  }

  function UpperDigit(d: nat): (c: char)
    requires d < 16
  {
    if d < 10 then (48 + d) as char else (55 + d) as char
  }

  function Value(c: char): (v: Option<nat>)
    ensures v.Some? ==> v.value < 16
  {
    if '0' <= c <= '9' then Some(c as int - 48)
    else if 'a' <= c <= 'f' then Some(c as int - 87)
    else if 'A' <= c <= 'F' then Some(c as int - 55)
    else None
  }

  lemma ValueOfDigit(d: nat)
    requires d < 16
    ensures Value(LowerDigit(d)) == Some(d) && Value(UpperDigit(d)) == Some(d)
  {
  }
}
