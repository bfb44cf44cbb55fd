/** The character stripping in front of the amount conversion: every
    occurrence of one character (the currency sign) is erased before the
    rest of the text is converted to a number. */
module AmountParsing {

  /** The text with every occurrence of ch taken out. */
  function Strip(s: string, ch: char): (r: string)
    ensures ch !in r
    ensures |r| <= |s|
  {
    if s == [] then []
    else if s[0] == ch then Strip(s[1..], ch)
    else [s[0]] + Strip(s[1..], ch)
  }

  /** Stripping distributes over concatenation. */
  lemma {:induction false} StripConcat(s: string, t: string, ch: char)
    ensures Strip(s + t, ch) == Strip(s, ch) + Strip(t, ch)
  {
    if s == [] {
      assert s + t == t;
    } else {
      assert (s + t)[1..] == s[1..] + t;
      StripConcat(s[1..], t, ch);
    }
  }

  /** Every other character is kept as often as it occurs, and ch is dropped
      as often as it occurs. */
  lemma {:induction false} StripCounts(s: string, ch: char)
    ensures forall c :: c != ch ==> multiset(Strip(s, ch))[c] == multiset(s)[c]
    ensures |Strip(s, ch)| == |s| - multiset(s)[ch]
  {
    if s != [] {
      StripCounts(s[1..], ch);
      assert s == [s[0]] + s[1..];
      assert multiset(s) == multiset{s[0]} + multiset(s[1..]);
    }
  }

  /** Order is kept: a character other than ch at index i of the input lands
      at the index equal to the number of characters kept before it. */
  lemma StripKeepsOrder(s: string, ch: char, i: int)
    requires 0 <= i < |s| && s[i] != ch
    ensures |Strip(s[..i], ch)| < |Strip(s, ch)|
    ensures Strip(s, ch)[|Strip(s[..i], ch)|] == s[i]
  {
    assert s == s[..i] + s[i..];
    StripConcat(s[..i], s[i..], ch);
  }

  /** Text without ch is left as it is. */
  lemma {:induction false} StripAbsent(s: string, ch: char)
    requires ch !in s
    ensures Strip(s, ch) == s
  {
    if s != [] {
      assert ch !in s[1..];
      StripAbsent(s[1..], ch);
      assert s == [s[0]] + s[1..];
    }
  }

  lemma StripIdempotent(s: string, ch: char)
    ensures Strip(Strip(s, ch), ch) == Strip(s, ch)
  {
    StripAbsent(Strip(s, ch), ch);
  }

  /** Sample amounts: one leading sign, no sign, and signs in several
      places. */
  lemma StripExamples()
    ensures Strip("$1234.5", '$') == "1234.5"
    ensures Strip("1234.5", '$') == "1234.5"
    ensures Strip("$$12$", '$') == "12"
  {
    StripAbsent("1234.5", '$');
  }

  /** std::remove on the characters of a: the kept characters are shifted to
      the front in their order, and the new logical end is returned. */
  method Remove(a: array<char>, ch: char) returns (newEnd: int)
    modifies a
    ensures 0 <= newEnd <= a.Length
    ensures a[..newEnd] == Strip(old(a[..]), ch)
  {
    newEnd := 0;
    for i := 0 to a.Length
      invariant newEnd <= i
      invariant a[..newEnd] == Strip(old(a[..])[..i], ch)
      invariant forall k :: i <= k < a.Length ==> a[k] == old(a[k])
    {
      ghost var done := old(a[..])[..i];
      assert old(a[..])[..i + 1] == done + [a[i]];
      StripConcat(done, [a[i]], ch);
      if a[i] != ch {
        a[newEnd] := a[i];
        newEnd := newEnd + 1;
      }
    }
    assert old(a[..])[..a.Length] == old(a[..]);
  }

  /** strToDouble: erase-remove ch on a copy of the text, then convert what
      is left with the C library's atof, which is a parameter here. */
  method StrToDouble(str: string, ch: char, atof: string -> real) returns (d: real)
    ensures d == atof(Strip(str, ch))
  {
    var buffer := new char[|str|](i requires 0 <= i < |str| => str[i]);
    assert buffer[..] == str;
    var len := Remove(buffer, ch);
    d := atof(buffer[..len]);
  }
}
