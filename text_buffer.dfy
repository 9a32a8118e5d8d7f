/** A mutable text container with position-addressed insertion and deletion
    (`Buffer`), a placeholder for an array-backed variant (`ArrayBuffer`), and
    the scripted scenario that exercises `Buffer`.

    `Buffer#insert(string, position)` assigns `string` to the character at
    index `position - 1`, and `Buffer#delete(start, length)` assigns the empty
    string to the `length` characters from index `start`. Both are one Ruby
    string splice (module RubyString), so insertion OVERWRITES one character
    instead of shifting the rest, and the two operations disagree on where
    counting starts: `position` is 1-based, `start` is 0-based. */
module TextBuffer {
  import opened RubyString

  /** The text after `insert(s, position)`, or the IndexError it raises. */
  function InsertText(t: string, s: string, position: int): (r: Result)
    ensures r.Raised? <==> position - 1 > |t| || position - 1 < -|t|
    ensures r.Raised? ==> r.error == IndexOutOfString(position - 1)
  {
    Spliced(t, position - 1, 1, s)
  }

  /** The text after `delete(start, length)`, or the IndexError it raises. */
  function DeleteText(t: string, start: int, length: int): (r: Result)
    ensures r.Raised? <==> length < 0 || start > |t| || start < -|t|
    ensures length < 0 ==> r == Raised(NegativeLength(length))
    ensures length >= 0 && r.Raised? ==> r == Raised(IndexOutOfString(start))
  {
    Spliced(t, start, length, "")
  }

  function Min(a: int, b: int): (r: int)
  {
    if a <= b then a else b
  }

  // ---------------------------------------------------------------------
  // insert

  /** At an in-range position, insert replaces the one character at index
      `position - 1` by `s`; nothing after it moves over to make room. */
  lemma InsertOverwrites(t: string, s: string, position: int)
    requires 1 <= position <= |t|
    ensures InsertText(t, s, position) == Ok(t[..position - 1] + s + t[position..])
    ensures |InsertText(t, s, position).value| == |t| + |s| - 1
  {
  }

  /** One past the last character, insert appends. */
  lemma InsertAtEndAppends(t: string, s: string)
    ensures InsertText(t, s, |t| + 1) == Ok(t + s)
    ensures |InsertText(t, s, |t| + 1).value| == |t| + |s|
  {
    assert t[|t|..] == [];
  }

  /** A position of 0 or below counts from the end: `position - 1 == -k`
      overwrites the k-th character from the end. */
  lemma InsertFromEnd(t: string, s: string, position: int)
    requires 1 - |t| <= position <= 0
    ensures InsertText(t, s, position) ==
      Ok(t[..|t| + position - 1] + s + t[|t| + position..])
  {
  }

  /** A one-character insert at an in-range position keeps the length and
      changes exactly the character at index `position - 1`. */
  lemma InsertCharReplaces(t: string, c: char, position: int)
    requires 1 <= position <= |t|
    ensures InsertText(t, [c], position) == Ok(t[position - 1 := c])
  {
    var r := InsertText(t, [c], position).value;
    forall i | 0 <= i < |t|
      ensures r[i] == t[position - 1 := c][i]
    {
      SplicedAt(t, position - 1, 1, [c], i);
    }
  }

  /** Inserting the empty string removes the character at `position - 1`:
      it is `delete(position - 1, 1)`, not a no-op. */
  lemma InsertEmptyDeletes(t: string, position: int)
    ensures InsertText(t, "", position) == DeleteText(t, position - 1, 1)
  {
  }

  /** Character by character, an in-range insert keeps what is before index
      `position - 1`, then holds `s`, then the text after that index. */
  lemma InsertAt(t: string, s: string, position: int, i: int)
    requires 1 <= position <= |t| + 1
    requires 0 <= i < |InsertText(t, s, position).value|
    ensures InsertText(t, s, position).value[i] ==
      if i < position - 1 then t[i]
      else if i < position - 1 + |s| then s[i - position + 1]
      else t[i - |s| + 1]
  {
    SplicedAt(t, position - 1, 1, s, i);
  }

  // ---------------------------------------------------------------------
  // delete

  /** From a 0-based `start`, delete removes up to `length` characters,
      clamped to what remains. */
  lemma DeleteSlice(t: string, start: int, length: int)
    requires 0 <= start <= |t| && length >= 0
    ensures DeleteText(t, start, length) == Ok(t[..start] + t[Min(start + length, |t|)..])
    ensures |DeleteText(t, start, length).value| == |t| - Min(length, |t| - start)
  {
  }

  /** Deleting nothing, or deleting at the very end, leaves the text as it
      is. */
  lemma DeleteNoOp(t: string, start: int, length: int)
    requires (length == 0 && -|t| <= start <= |t|) || (start == |t| && length >= 0)
    ensures DeleteText(t, start, length) == Ok(t)
  {
    var b := Offset(|t|, start);
    assert Removed(|t|, b, length) == 0;
    assert t[..b] + t[b..] == t;
  }

  /** A length that reaches or overruns the end removes everything from
      `start` on; in particular `delete(0, |t|)` empties the buffer. */
  lemma DeleteToEnd(t: string, start: int, length: int)
    requires 0 <= start <= |t| && length >= |t| - start
    ensures DeleteText(t, start, length) == Ok(t[..start])
    ensures DeleteText(t, 0, |t|) == Ok([])
  {
    assert t[|t|..] == [];
  }

  /** Character by character, delete keeps what is before `start` and shifts
      the rest left by the number of characters removed. */
  lemma DeleteAt(t: string, start: int, length: int, i: int)
    requires 0 <= start <= |t| && length >= 0
    requires 0 <= i < |t| - Min(length, |t| - start)
    ensures DeleteText(t, start, length).value[i] ==
      if i < start then t[i] else t[i + Min(length, |t| - start)]
  {
    SplicedAt(t, start, length, "", i);
  }

  // ---------------------------------------------------------------------
  // insert and delete together

  /** Inserting at the 1-based position of the character `c` that follows
      `head` puts `s` in place of `c`. */
  lemma InsertReplacesCharAfter(head: string, c: char, tail: string, s: string)
    ensures InsertText(head + [c] + tail, s, |head| + 1) == Ok(head + s + tail)
  {
    var t := head + [c] + tail;
    InsertOverwrites(t, s, |head| + 1);
    assert t[..|head|] == head;
    assert t[|head| + 1..] == tail;
  }

  /** Deleting from the 0-based index just after `head` as many characters
      as `middle` holds removes exactly `middle`. */
  lemma DeleteRemovesInfix(head: string, middle: string, tail: string)
    ensures DeleteText(head + middle + tail, |head|, |middle|) == Ok(head + tail)
  {
    var t := head + middle + tail;
    DeleteSlice(t, |head|, |middle|);
    assert t[..|head|] == head;
    assert t[|head| + |middle|..] == tail;
  }

  /** Insert can be made to shift: overwriting the character at index
      `position - 1` with itself followed by `s` places `s` after that
      character, and deleting the `|s|` characters from the (0-based) index
      `position` takes them out again. */
  lemma InsertKeepingCharThenDeleteRestores(t: string, s: string, position: int)
    requires 1 <= position <= |t|
    ensures InsertText(t, [t[position - 1]] + s, position) ==
      Ok(t[..position] + s + t[position..])
    ensures DeleteText(InsertText(t, [t[position - 1]] + s, position).value, position, |s|) == Ok(t)
  {
    var p := position;
    InsertOverwrites(t, [t[p - 1]] + s, p);
    assert t[..p - 1] + ([t[p - 1]] + s) + t[p..] == t[..p] + s + t[p..] by {
      assert t[..p] == t[..p - 1] + [t[p - 1]];
    }
    var u := t[..p] + s + t[p..];
    DeleteSlice(u, p, |s|);
    assert u[..p] == t[..p];
    assert u[p + |s|..] == t[p..];
    assert t[..p] + t[p..] == t;
  }

  /** Delete is undone by an insert at the 1-based position of the character
      before the deleted range, given that character followed by the deleted
      characters. */
  lemma DeleteThenInsertRestores(t: string, start: int, length: int)
    requires 1 <= start <= |t| && length >= 0
    ensures var k := Min(length, |t| - start);
      InsertText(DeleteText(t, start, length).value, t[start - 1..start + k], start) == Ok(t)
  {
    var k := Min(length, |t| - start);
    DeleteSlice(t, start, length);
    var u := t[..start] + t[start + k..];
    assert DeleteText(t, start, length).value == u;
    InsertOverwrites(u, t[start - 1..start + k], start);
    assert u[..start - 1] == t[..start - 1];
    assert u[start..] == t[start + k..];
    assert t[..start - 1] + t[start - 1..start + k] + t[start + k..] == t;
  }

  // ---------------------------------------------------------------------
  // the classes

  /** A container for text that allows insertion and deletion of arbitrary
      parts, stored as one string. The Ruby object keeps the caller's string
      object and edits it in place; here the text is a value. */
  class Buffer {
    var text: string

    constructor (text: string)
      ensures this.text == text
    {
      this.text := text;
    }

    /** `@text[position - 1] = string`; on success returns `string`. On an
        IndexError the text is unchanged. */
    method Insert(s: string, position: int) returns (r: Result)
      modifies this
      ensures match InsertText(old(text), s, position)
        case Ok(t) => text == t && r == Ok(s)
        case Raised(e) => text == old(text) && r == Raised(e)
      ensures 1 <= position <= |old(text)| ==>
        text == old(text)[..position - 1] + s + old(text)[position..]
      ensures position == |old(text)| + 1 ==> text == old(text) + s
    {
      if 1 <= position <= |text| {
        InsertOverwrites(text, s, position);
      }
      InsertAtEndAppends(text, s);
      match Spliced(text, position - 1, 1, s)
      case Ok(t) =>
        text := t;
        r := Ok(s);
      case Raised(e) =>
        r := Raised(e);
    }

    /** `@text[start, length] = ''`; on success returns `''`. On an
        IndexError the text is unchanged. */
    method Delete(start: int, length: int) returns (r: Result)
      modifies this
      ensures match DeleteText(old(text), start, length)
        case Ok(t) => text == t && r == Ok("")
        case Raised(e) => text == old(text) && r == Raised(e)
      ensures 0 <= start <= |old(text)| && length >= 0 ==>
        text == old(text)[..start] + old(text)[Min(start + length, |old(text)|)..]
    {
      if 0 <= start <= |text| && length >= 0 {
        DeleteSlice(text, start, length);
      }
      match Spliced(text, start, length, "")
      case Ok(t) =>
        text := t;
        r := Ok("");
      case Raised(e) =>
        r := Raised(e);
    }
  }

  /** The array-backed variant as it stands: its text is an empty array
      whatever it is constructed from, and its edits do nothing. */
  class ArrayBuffer {
    var text: seq<string>

    constructor (text: string)
      ensures this.text == []
    {
      this.text := [];
    }

    method Insert(s: string, position: int)
      ensures text == old(text)
    {
    }

    method Delete(start: int, length: int)
      ensures text == old(text)
    {
    }
  }

  // ---------------------------------------------------------------------
  // runs of edits on one buffer

  /** One call on a buffer, as the script makes them. */
  datatype Edit = Insert(s: string, position: int) | Delete(start: int, length: int)

  /** The text after one call, or the IndexError it raises. */
  function Step(t: string, e: Edit): (r: Result)
  {
    match e
    case Insert(s, position) => InsertText(t, s, position)
    case Delete(start, length) => DeleteText(t, start, length)
  }

  /** The text after making the calls `edits` in order, or the first
      IndexError raised, which ends the run. */
  function Run(t: string, edits: seq<Edit>): (r: Result)
    decreases |edits|
  {
    if edits == [] then Ok(t)
    else match Step(t, edits[0])
      case Ok(u) => Run(u, edits[1..])
      case Raised(e) => Raised(e)
  }

  /** Running two lists of edits one after the other is running their
      concatenation: a script can be checked piece by piece. */
  lemma {:induction false} RunConcat(t: string, first: seq<Edit>, rest: seq<Edit>)
    ensures Run(t, first + rest) ==
      match Run(t, first)
      case Ok(u) => Run(u, rest)
      case Raised(e) => Raised(e)
    decreases |first|
  {
    if first == [] {
      assert first + rest == rest;
    } else {
      assert (first + rest)[0] == first[0];
      assert (first + rest)[1..] == first[1..] + rest;
      match Step(t, first[0])
      case Ok(u) => RunConcat(u, first[1..], rest);
      case Raised(e) =>
    }
  }

  /** True when every edit inserts one character at a position between 1 and
      `n`. */
  predicate CharOverwrites(n: nat, edits: seq<Edit>)
  {
    forall i :: 0 <= i < |edits| ==>
      edits[i].Insert? && |edits[i].s| == 1 && 1 <= edits[i].position <= n
  }

  /** True when no insert of the run targets index `j`. */
  predicate Untouched(j: int, edits: seq<Edit>)
  {
    forall i :: 0 <= i < |edits| && edits[i].Insert? ==> edits[i].position - 1 != j
  }

  /** One-character inserts at in-range positions never raise, keep the
      length, and leave every index no insert targets as it was; the last
      edit of a non-empty run leaves its character at its index. */
  lemma {:induction false} CharOverwritesKeepLength(t: string, edits: seq<Edit>)
    requires CharOverwrites(|t|, edits)
    ensures Run(t, edits).Ok? && |Run(t, edits).value| == |t|
    ensures forall j :: 0 <= j < |t| && Untouched(j, edits) ==> Run(t, edits).value[j] == t[j]
    ensures edits != [] ==>
      Run(t, edits).value[edits[|edits| - 1].position - 1] == edits[|edits| - 1].s[0]
    decreases |edits|
  {
    if edits != [] {
      var e := edits[0];
      InsertCharReplaces(t, e.s[0], e.position);
      assert e.s == [e.s[0]];
      var u := t[e.position - 1 := e.s[0]];
      assert Step(t, e) == Ok(u);
      assert CharOverwrites(|u|, edits[1..]) by {
        forall i | 0 <= i < |edits[1..]|
          ensures edits[1..][i] == edits[i + 1]
        {
        }
      }
      CharOverwritesKeepLength(u, edits[1..]);
      forall j | 0 <= j < |t| && Untouched(j, edits)
        ensures Run(t, edits).value[j] == t[j]
      {
        assert edits[0].position - 1 != j;
        assert Untouched(j, edits[1..]) by {
          forall i | 0 <= i < |edits[1..]|
            ensures edits[1..][i].Insert? ==> edits[1..][i].position - 1 != j
          {
            assert edits[1..][i] == edits[i + 1];
          }
        }
      }
      if |edits| == 1 {
        assert edits[1..] == [];
      } else {
        assert edits[1..][|edits[1..]| - 1] == edits[|edits| - 1];
      }
    }
  }

  // ---------------------------------------------------------------------
  // the scripted scenario

  /** The words the script's texts share, between their first word and
      their last two. */
  const Middle := "quick brown fox jumped over the "

  /** The text the script starts from,
      "The quick brown fox jumped over the lazy dog". */
  const OriginalText := "The " + Middle + "lazy dog"

  // Each step holds whatever the shared words are; only their number of
  // characters matters, where the script's indices reach past them. The two
  // concatenation helpers keep the literal words apart from those shared words.

  /** Splitting the first part of a concatenation into `b + c`. */
  lemma ConcatSplitFirst(a: string, b: string, c: string, m: string, d: string)
    requires a == b + c
    ensures a + m + d == b + (c + m + d)
  {
  }

  /** Splitting the last part of a concatenation into `e + f`. */
  lemma ConcatSplitLast(h: string, d: string, e: string, f: string)
    requires d == e + f
    ensures h + d == h + e + f
  {
  }

  /** `insert(" speedy ", 4)` overwrites the space at index 3. */
  lemma SpeedyStep(middle: string)
    ensures InsertText("The " + middle + "lazy dog", " speedy ", 4) ==
      Ok("The speedy " + middle + "lazy dog")
  {
    ConcatSplitFirst("The ", "The" + [' '], [], middle, "lazy dog");
    InsertReplacesCharAfter("The", ' ', [] + middle + "lazy dog", " speedy ");
    ConcatSplitFirst("The speedy ", "The" + " speedy ", [], middle, "lazy dog");
  }

  /** `delete(43, 5)` removes "lazy ". */
  lemma LazyStep(middle: string)
    requires |middle| == 32
    ensures DeleteText("The speedy " + middle + "lazy dog", 43, 5) ==
      Ok("The speedy " + middle + "dog")
  {
    ConcatSplitLast("The speedy " + middle, "lazy dog", "lazy ", "dog");
    DeleteRemovesInfix("The speedy " + middle, "lazy ", "dog");
  }

  /** `insert("s", 47)` is one past the end of the 46 characters: it
      appends. */
  lemma DogsStep(middle: string)
    requires |middle| == 32
    ensures InsertText("The speedy " + middle + "dog", "s", 47) ==
      Ok("The speedy " + middle + "dogs")
  {
    InsertAtEndAppends("The speedy " + middle + "dog", "s");
    ConcatSplitLast("The speedy " + middle, "dogs", "dog", "s");
  }

  /** `delete(1, 4)` removes "he s", the four characters after the first. */
  lemma HeadStep(middle: string)
    ensures DeleteText("The speedy " + middle + "dogs", 1, 4) == Ok("Tpeedy " + middle + "dogs")
  {
    ConcatSplitFirst("The speedy ", "T" + "he s", "peedy ", middle, "dogs");
    DeleteRemovesInfix("T", "he s", "peedy " + middle + "dogs");
    ConcatSplitFirst("Tpeedy ", "T", "peedy ", middle, "dogs");
  }

  /** `insert("A", 1)` overwrites the first character. */
  lemma CapitalStep(middle: string)
    ensures InsertText("Tpeedy " + middle + "dogs", "A", 1) == Ok("Apeedy " + middle + "dogs")
  {
    ConcatSplitFirst("Tpeedy ", [] + ['T'], "peedy ", middle, "dogs");
    InsertReplacesCharAfter([], 'T', "peedy " + middle + "dogs", "A");
    ConcatSplitFirst("Apeedy ", [] + "A", "peedy ", middle, "dogs");
  }

  /** `insert(" ", 2)` then overwrites the second character. */
  lemma SpaceStep(middle: string)
    ensures InsertText("Apeedy " + middle + "dogs", " ", 2) == Ok("A eedy " + middle + "dogs")
  {
    ConcatSplitFirst("Apeedy ", "A" + ['p'], "eedy ", middle, "dogs");
    InsertReplacesCharAfter("A", 'p', "eedy " + middle + "dogs", " ");
    ConcatSplitFirst("A eedy ", "A" + " ", "eedy ", middle, "dogs");
  }

  /** The calls the script makes, in order. */
  const ScriptEdits := [Insert(" speedy ", 4), Delete(43, 5), Insert("s", 47),
                        Delete(1, 4), Insert("A", 1), Insert(" ", 2)]

  /** The script's calls, made on the original text as values, end in the
      same text as on the buffer object. */
  lemma ScriptRun()
    ensures Run(OriginalText, ScriptEdits[..3]) == Ok("The speedy " + Middle + "dogs")
    ensures Run(OriginalText, ScriptEdits) == Ok("A eedy " + Middle + "dogs")
  {
    var first, rest := ScriptEdits[..3], ScriptEdits[3..];
    assert ScriptEdits == first + rest;
    var t0, t1, t2 := OriginalText, "The speedy " + Middle + "lazy dog", "The speedy " + Middle + "dog";
    var t3, t4 := "The speedy " + Middle + "dogs", "Tpeedy " + Middle + "dogs";
    var t5, t6 := "Apeedy " + Middle + "dogs", "A eedy " + Middle + "dogs";

    SpeedyStep(Middle);
    LazyStep(Middle);
    DogsStep(Middle);
    assert Run(t3, first[3..]) == Ok(t3);
    assert Run(t2, first[2..]) == Ok(t3);
    assert Run(t1, first[1..]) == Ok(t3);
    assert Run(t0, first[0..]) == Ok(t3);
    assert first[0..] == first;

    HeadStep(Middle);
    CapitalStep(Middle);
    SpaceStep(Middle);
    assert Run(t6, rest[3..]) == Ok(t6);
    assert Run(t5, rest[2..]) == Ok(t6);
    assert Run(t4, rest[1..]) == Ok(t6);
    assert Run(t3, rest[0..]) == Ok(t6);
    assert rest[0..] == rest;

    RunConcat(t0, first, rest);
  }

  /** The texts after `delete(1, 4)` and after the two one-character
      inserts differ from what the script expects of them: the first keeps
      its "T", the second has "e" where "s" is expected. */
  lemma ExpectationsUnmet(middle: string)
    ensures "Tpeedy " + middle + "dogs" != "speedy " + middle + "dogs"
    ensures "A eedy " + middle + "dogs" != "A speedy " + middle + "dogs"
  {
    assert ("Tpeedy " + middle + "dogs")[0] == 'T';
    assert ("speedy " + middle + "dogs")[0] == 's';
    assert ("A eedy " + middle + "dogs")[2] == 'e';
    assert ("A speedy " + middle + "dogs")[2] == 's';
  }

  /** The five texts the script reads back from one buffer. The first three
      are the ones it expects; the fourth is not the expected "speedy quick
      brown fox jumped over the dogs", because delete's `start` is 0-based;
      the fifth is not the expected "A speedy quick brown fox jumped over the
      dogs", because insert overwrites. */
  method Script() returns (speedy: string, dog: string, dogs: string, deleted: string, prefixed: string)
    ensures speedy == "The speedy " + Middle + "lazy dog"
    ensures dog == "The speedy " + Middle + "dog"
    ensures dogs == "The speedy " + Middle + "dogs"
    ensures deleted == "Tpeedy " + Middle + "dogs"
    ensures deleted != "speedy " + Middle + "dogs"
    ensures prefixed == "A eedy " + Middle + "dogs"
    ensures prefixed != "A speedy " + Middle + "dogs"
    ensures Run(OriginalText, ScriptEdits) == Ok(prefixed)
  {
    ScriptRun();
    var buffer := new Buffer(OriginalText);

    SpeedyStep(Middle);
    var _ := buffer.Insert(" speedy ", 4);
    speedy := buffer.text;

    LazyStep(Middle);
    var _ := buffer.Delete(43, 5);
    dog := buffer.text;

    DogsStep(Middle);
    var _ := buffer.Insert("s", 47);
    dogs := buffer.text;

    HeadStep(Middle);
    var _ := buffer.Delete(1, 4);
    deleted := buffer.text;

    CapitalStep(Middle);
    SpaceStep(Middle);
    var _ := buffer.Insert("A", 1);
    var _ := buffer.Insert(" ", 2);
    prefixed := buffer.text;
    ExpectationsUnmet(Middle);
  }
}
