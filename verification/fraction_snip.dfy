/** The string surgery both loaders perform on a timestamp before handing it to the date
    parser: the fractional seconds, from the first '.' up to a terminator, are cut out of
    the text and kept, with a "0" in front, as the fraction to add back afterwards. The
    two loaders differ only in where the terminator is. */
module FractionSnip {
  import opened JavaLang

  /** The whole-seconds text given to the date parser and the fraction text given to
      `Double.parseDouble`. */
  datatype Snipped = Snipped(whole: string, fraction: string)

  /** `sb.substring(start, end)` then `sb.delete(start, end)` where `start` is the first
      '.'; `end` is the terminator index the caller found, -1 meaning none. Without a
      '.', the text is untouched and the fraction is "0.0". A terminator before the '.'
      makes `substring` throw. */
  function CutFraction(t: string, end: int): (r: Result<Snipped>)
    requires end <= |t| && (0 <= end < |t| ==> t[end] != '.')
    ensures r.Fail? <==> '.' in t && end < IndexOf(t, '.')
    ensures r.Fail? ==> r.exc == IndexOutOfBounds
    ensures '.' !in t ==> r == Ok(Snipped(t, "0.0"))
  {
    var start := IndexOf(t, '.');
    if start == -1 then Ok(Snipped(t, "0.0"))
    else if end < start then Fail(IndexOutOfBounds)
    else Ok(Snipped(t[..start] + t[end..], "0" + t[start..end]))
  }

  /** The cut in terms of the two indices: with `s` the first '.' and `e >= s` the
      terminator, the fraction is "0" + t[s..e) and the rest of the text is kept. */
  lemma CutFractionSegment(t: string, end: int)
    requires end <= |t| && (0 <= end < |t| ==> t[end] != '.')
    requires '.' in t && IndexOf(t, '.') <= end
    ensures var s := IndexOf(t, '.');
            CutFraction(t, end) == Ok(Snipped(t[..s] + t[end..], "0" + t[s..end]))
    ensures |CutFraction(t, end).value.whole| + |CutFraction(t, end).value.fraction| == |t| + 1
  {
  }

  /** Nothing is lost by the cut: the fraction starts with "0.", and putting everything
      after its "0" back at the first '.' of the whole-seconds text gives the original
      timestamp. */
  lemma CutFractionReassembles(t: string, end: int)
    requires end <= |t| && (0 <= end < |t| ==> t[end] != '.')
    requires CutFraction(t, end).Ok? && '.' in t
    ensures var start, sn := IndexOf(t, '.'), CutFraction(t, end).value;
            && |sn.fraction| >= 2 && sn.fraction[..2] == "0."
            && start <= |sn.whole|
            && '.' !in sn.whole[..start]
            && sn.whole[..start] + sn.fraction[1..] + sn.whole[start..] == t
  {
    var start := IndexOf(t, '.');
    CutFractionSegment(t, end);
    var whole, fraction := t[..start] + t[end..], "0" + t[start..end];
    assert CutFraction(t, end).value == Snipped(whole, fraction);
    assert fraction[..2] == ['0', t[start]];
    assert whole[..start] == t[..start];
    assert whole[start..] == t[end..];
    assert fraction[1..] == t[start..end];
    ThreeWaySplit(t, start, end);
  }

  lemma ThreeWaySplit<T>(s: seq<T>, i: nat, j: nat)
    requires i <= j <= |s|
    ensures s[..i] + s[i..j] + s[j..] == s
  {
    assert s[..i] + s[i..j] == s[..j];
  }
}
