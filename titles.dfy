/** `get_title`: a short title cut from the front of a text.
    Lemmas marked `{:induction false}` that do not recurse carry it to keep
    Dafny's automatic induction out of their proofs, which only call other lemmas. */
module Titles {
  import opened PyStr

  const DefaultTitleLength := 32
  const Ellipsis := "..."

  /** `get_title(text, slen)`: the text itself when it is shorter than `slen`,
      otherwise `text[:slen] + "..."`, even when nothing had to be cut. */
  function GetTitle(text: string, slen: int := DefaultTitleLength): (r: string)
    ensures slen > |text| ==> r == text
    ensures 0 <= slen <= |text| ==>
      |r| == slen + |Ellipsis| && r[..slen] == text[..slen] && r[slen..] == Ellipsis
    ensures slen < 0 ==> r == text[..Max(0, |text| + slen)] + Ellipsis
    ensures slen >= 0 ==> |r| <= slen + |Ellipsis|
  {
    if slen > |text| then text else Take(text, slen) + Ellipsis
  }

  /** A text exactly `slen` long is not cut, yet still gets the ellipsis. */
  lemma FullLengthStillMarked(text: string)
    ensures GetTitle(text, |text|) == text + Ellipsis
  {
  }

  /** For a non-negative length a title is its own title: applying `get_title`
      twice gives what applying it once does. */
  lemma {:induction false} TitleIdempotent(text: string, slen: int)
    requires slen >= 0
    ensures GetTitle(GetTitle(text, slen), slen) == GetTitle(text, slen)
  {
    var r := GetTitle(text, slen);
    if slen <= |text| {
      assert r == r[..slen] + r[slen..];
    }
  }

  /** A negative length counts from the end, and the ellipsis is part of what
      the next application counts from: the title of a title is longer than the
      title when `-3 < slen < 0`, the title itself when `slen == -3`, and no
      longer than it when `slen < -3`. */
  lemma {:induction false} RetitleNegativeLength(text: string, slen: int)
    requires slen < 0
    ensures slen == -|Ellipsis| ==> GetTitle(GetTitle(text, slen), slen) == GetTitle(text, slen)
    ensures -|Ellipsis| < slen ==> |GetTitle(GetTitle(text, slen), slen)| > |GetTitle(text, slen)|
    ensures slen < -|Ellipsis| ==> |GetTitle(GetTitle(text, slen), slen)| <= |GetTitle(text, slen)|
  {
    var t := GetTitle(text, slen);
    var k := Max(0, |text| + slen);
    assert t[..k] == text[..k];
  }
}
