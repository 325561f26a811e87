/**
 * The candidate move: an immutable pair of cookie references. It caches no
 * coordinates; the board reads them from the cookies when it applies the
 * swap. Construction checks nothing, so `Swap(c, c)` is a value like any other.
 */
module Swaps {
  import opened Options
  import opened Cookies

  datatype Swap = Swap(cookieA: Cookie, cookieB: Cookie)

  /**
   * The printable form "swap <A> with <B>". A cookie's own printable text is
   * supplied by `describe`.
   */
  function Description(swap: Swap, describe: Cookie -> string): (s: string)
    ensures var textA, textB := describe(swap.cookieA), describe(swap.cookieB);
            |s| == |textA| + |textB| + 11 &&
            s[..5] == "swap " &&
            s[5..5 + |textA|] == textA &&
            s[5 + |textA|..11 + |textA|] == " with " &&
            s[11 + |textA|..] == textB
  {
    "swap " + describe(swap.cookieA) + " with " + describe(swap.cookieB)
  }

  /**
   * Reads a description back into the texts of its two cookies, given the
   * length of the first; `None` when the string does not have that shape.
   */
  function SplitDescription(s: string, lengthA: nat): (parts: Option<(string, string)>)
    ensures parts.Some? ==> s == "swap " + parts.value.0 + " with " + parts.value.1
    ensures parts.Some? ==> |parts.value.0| == lengthA
  {
    if |s| >= lengthA + 11 && s[..5] == "swap " && s[5 + lengthA..11 + lengthA] == " with " then
      var parts := (s[5..5 + lengthA], s[11 + lengthA..]);
      assert s == s[..5] + s[5..5 + lengthA] + s[5 + lengthA..11 + lengthA] + s[11 + lengthA..];
      Some(parts)
    else
      None
  }

  /** The description determines both cookies' texts, in order. */
  lemma DescriptionRoundTrip(swap: Swap, describe: Cookie -> string)
    ensures SplitDescription(Description(swap, describe), |describe(swap.cookieA)|)
            == Some((describe(swap.cookieA), describe(swap.cookieB)))
  {
    var s := Description(swap, describe);
    var n := |describe(swap.cookieA)|;
    assert s[..5] == "swap ";
    assert s[5 + n..11 + n] == " with ";
  }

  /**
   * The description is ordered: exchanging the two cookies changes it whenever
   * their texts have the same length and differ.
   */
  lemma DescriptionIsOrdered(a: Cookie, b: Cookie, describe: Cookie -> string)
    requires |describe(a)| == |describe(b)| && describe(a) != describe(b)
    ensures Description(Swap(a, b), describe) != Description(Swap(b, a), describe)
  {
    DescriptionRoundTrip(Swap(a, b), describe);
    DescriptionRoundTrip(Swap(b, a), describe);
  }
}
