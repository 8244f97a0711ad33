/**
  The two ECMAScript string built-ins the balance formatter calls, with
  their index clamping written out: JavaScript never throws on an index
  out of range, it clamps, so the model must too.
 */
module JsString {

  /** `x` pulled into the closed interval `[lo, hi]`. */
  function Clamp(x: int, lo: int, hi: int): (r: int)
    requires lo <= hi
    ensures lo <= r <= hi
    ensures lo <= x <= hi ==> r == x
    ensures x < lo ==> r == lo
    ensures hi < x ==> r == hi
  {
    if x < lo then lo else if hi < x then hi else x
  }

  /** `s.substring(start, end)`: both indices are clamped into `[0, |s|]`,
      and when they arrive in decreasing order they are swapped. */
  function Substring(s: string, start: int, end: int): (r: string)
    ensures |r| <= |s|
    ensures 0 <= start <= end <= |s| ==> r == s[start..end]
    ensures 0 <= end <= start <= |s| ==> r == s[end..start]
    ensures start <= 0 <= end <= |s| ==> r == s[..end]
    ensures end <= 0 <= start <= |s| ==> r == s[..start]
    ensures 0 <= start <= |s| <= end ==> r == s[start..]
    ensures 0 <= end <= |s| <= start ==> r == s[end..]
    ensures (start <= 0 && |s| <= end) || (end <= 0 && |s| <= start) ==> r == s
    ensures (start <= 0 && end <= 0) || (|s| <= start && |s| <= end) ==> r == ""
  {
    var a := Clamp(start, 0, |s|);
    var b := Clamp(end, 0, |s|);
    if a <= b then s[a..b] else s[b..a]
  }

  /** `s.substr(start)` with the length argument omitted: everything from
      `start` to the end, where a negative `start` counts back from the end
      and is clamped at the first character. */
  function SubstrFrom(s: string, start: int): (r: string)
    ensures 0 <= start <= |s| ==> r == s[start..]
    ensures -|s| <= start < 0 ==> r == s[|s| + start..]
    ensures start < -|s| ==> r == s
    ensures |s| <= start ==> r == ""
  {
    var from := if start < 0 then Clamp(|s| + start, 0, |s|) else Clamp(start, 0, |s|);
    s[from..]
  }
}
