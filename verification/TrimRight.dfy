/** `trim_right`: repeated passes over the cut set, each character stripping at most one position. */
module TrimRight {

  function Trimmed(s: string, cutset: string): string {
    if s == "" || s[|s| - 1] !in cutset then s else Trimmed(s[..|s| - 1], cutset)
  }

  /** Some character is there to stop at. */
  predicate Stops(s: string, cutset: string) {
    exists c <- s :: c !in cutset
  }

  /** The longest prefix that does not end in the cut set, and the only such prefix that leaves nothing
      but cut characters behind. */
  lemma {:induction false} TrimmedIsLongest(s: string, cutset: string)
    ensures var r := Trimmed(s, cutset);
            && r <= s && (forall c <- s[|r|..] :: c in cutset)
            && (r == "" || r[|r| - 1] !in cutset)
            && forall k :: 0 <= k < |s| && s[k] !in cutset ==> k < |r|
  {
    if s != "" && s[|s| - 1] in cutset {
      var init := s[..|s| - 1];
      TrimmedIsLongest(init, cutset);
      var r := Trimmed(s, cutset);
      assert s[|r|..] == init[|r|..] + [s[|s| - 1]];
      forall k | 0 <= k < |s| && s[k] !in cutset ensures k < |r| {
        assert k < |init| && init[k] == s[k];
      }
    }
  }

  lemma {:induction false} StopsExactly(s: string, cutset: string)
    ensures Stops(s, cutset) <==> Trimmed(s, cutset) != ""
  {
    TrimmedIsLongest(s, cutset);
    var r := Trimmed(s, cutset);
    if r != "" {
      assert r[|r| - 1] == s[|r| - 1] && s[|r| - 1] in s;
    } else {
      assert s[|r|..] == s;
    }
  }

  /** Order and repetition in the cut set do not matter, and trimming again changes nothing. */
  lemma {:induction false} TrimmedBySet(s: string, cutset: string, other: string)
    requires forall c :: c in cutset <==> c in other
    ensures Trimmed(s, cutset) == Trimmed(s, other)
    ensures Trimmed(Trimmed(s, cutset), other) == Trimmed(s, cutset)
  {
    if s != "" && s[|s| - 1] in cutset {
      TrimmedBySet(s[..|s| - 1], cutset, other);
    }
  }

  /** `trim_right`; `defined` is false when it would read the character before an empty string. */
  method TrimRight(text: string, cutset: string) returns (defined: bool, str: string)
    ensures defined <==> cutset == "" || Stops(text, cutset)
    ensures defined ==> str == Trimmed(text, cutset)
  {
    str := text;
    StopsExactly(text, cutset);
    while true
      invariant Trimmed(str, cutset) == Trimmed(text, cutset)
      decreases |str|
    {
      var n := |str|;
      var i := 0;
      while i < |cutset|
        invariant 0 <= i <= |cutset| && |str| <= n
        invariant Trimmed(str, cutset) == Trimmed(text, cutset)
        invariant |str| == n && i > 0 ==> str != "" && str[|str| - 1] !in cutset[..i]
      {
        if |str| == 0 {
          return false, str;
        }
        if str[|str| - 1] == cutset[i] {
          str := str[..|str| - 1];
        }
        assert cutset[..i + 1] == cutset[..i] + [cutset[i]];
        i := i + 1;
      }
      assert cutset[..i] == cutset;
      if n == |str| {
        break;
      }
    }
    defined := true;
  }
}
