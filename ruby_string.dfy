/** The part of Ruby's String that the buffer relies on: index assignment
    `str[index] = val` and `str[start, length] = val`. Both forms splice `val`
    into the receiver in place of the characters `[beg, beg + len)`, the
    first with `len == 1`. Indices count characters; a negative index counts
    from the end; a length that overruns the end is clamped; a negative length
    or an index outside the string raises IndexError and leaves the receiver
    as it was. */
module RubyString {

  /** The two ways a splice raises IndexError, checked in this order. */
  datatype IndexError =
    | NegativeLength(length: int)
    | IndexOutOfString(index: int)

  /** What a call produces: a string value, or the exception it raised. */
  datatype Result = Ok(value: string) | Raised(error: IndexError)

  /** True when `beg` addresses a position of a string of `n` characters,
      counting from the end when negative (the end itself included). */
  predicate InString(n: nat, beg: int)
  {
    0 <= beg + n && beg <= n
  }

  /** The non-negative offset that an in-string index `beg` denotes. */
  function Offset(n: nat, beg: int): (b: nat)
    requires InString(n, beg)
    ensures b <= n
  {
    if beg < 0 then beg + n else beg
  }

  /** The number of characters a splice of `len` at offset `b` removes. */
  function Removed(n: nat, b: nat, len: nat): (k: nat)
    requires b <= n
    ensures b + k <= n
    ensures k == len || b + k == n
    ensures k <= len
  {
    if len > n - b then n - b else len
  }

  /** The receiver's contents after `s[beg, len] = val`, or the IndexError it
      raises. */
  function Spliced(s: string, beg: int, len: int, val: string): (r: Result)
    ensures r.Raised? <==> len < 0 || !InString(|s|, beg)
    ensures r == Raised(NegativeLength(len)) <==> len < 0
    ensures r == Raised(IndexOutOfString(beg)) <==> len >= 0 && !InString(|s|, beg)
    ensures r.Ok? ==> |r.value| == |s| - Removed(|s|, Offset(|s|, beg), len) + |val|
  {
    if len < 0 then Raised(NegativeLength(len))
    else if !InString(|s|, beg) then Raised(IndexOutOfString(beg))
    else
      var b := Offset(|s|, beg);
      var k := Removed(|s|, b, len);
      Ok(s[..b] + val + s[b + k..])
  }

  /** Character by character: before the offset the receiver is kept, then
      `val` follows, then what is left after the removed characters. */
  lemma SplicedAt(s: string, beg: int, len: int, val: string, i: int)
    requires len >= 0 && InString(|s|, beg)
    requires 0 <= i < |s| - Removed(|s|, Offset(|s|, beg), len) + |val|
    ensures var b, k := Offset(|s|, beg), Removed(|s|, Offset(|s|, beg), len);
      Spliced(s, beg, len, val).value[i] ==
        if i < b then s[i]
        else if i < b + |val| then val[i - b]
        else s[i - |val| + k]
  {
    var b, k := Offset(|s|, beg), Removed(|s|, Offset(|s|, beg), len);
    var r := s[..b] + val + s[b + k..];
    assert Spliced(s, beg, len, val).value == r;
    if i < b {
      assert r[i] == (s[..b] + val)[i];
    } else if i < b + |val| {
      assert r[i] == (s[..b] + val)[i];
    } else {
      assert r[i] == s[b + k..][i - b - |val|];
    }
  }
}
