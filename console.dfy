/** The command-line tokenizer of the reader's console: splits a line of
    input at a separator character, appending the pieces to a token list. */
module Console {
  import opened Wrappers

  /** `std::string::find(sep, start)`: the first index at or after `start`
      holding `sep`, if any. */
  function Find(text: string, sep: char, start: nat): (r: Option<nat>)
    requires start <= |text|
    ensures r.Some? ==> start <= r.value < |text| && text[r.value] == sep
    ensures r.Some? ==> forall k :: start <= k < r.value ==> text[k] != sep
    ensures r.None? <==> forall k :: start <= k < |text| ==> text[k] != sep
    decreases |text| - start
  {
    if start == |text| then None
    else if text[start] == sep then Some(start)
    else Find(text, sep, start + 1)
  }

  /** The tokens one call appends for the text from `start` on: each non-empty
      piece before a separator, then the final piece, empty or not. */
  function SplitFrom(text: string, sep: char, start: nat): seq<string>
    requires start <= |text|
    decreases |text| - start
  {
    match Find(text, sep, start)
    case None => [text[start..]]
    case Some(end) =>
      (if end > start then [text[start..end]] else []) + SplitFrom(text, sep, end + 1)
  }

  /** `Console::split`: appends the tokens of `text` to `tokens`. */
  method Split(tokens: seq<string>, text: string, sep: char) returns (result: seq<string>)
    ensures result == tokens + SplitFrom(text, sep, 0)
  {
    result := tokens;
    var start := 0;
    var found := Find(text, sep, start);
    while found.Some?
      invariant start <= |text|
      invariant found == Find(text, sep, start)
      invariant result + SplitFrom(text, sep, start) == tokens + SplitFrom(text, sep, 0)
      decreases |text| - start
    {
      var end := found.value;
      var tmp := text[start..end];
      ghost var rest := SplitFrom(text, sep, end + 1);
      if |tmp| > 0 {
        assert SplitFrom(text, sep, start) == [tmp] + rest;
        Regroup(result, [tmp], rest);
        result := result + [tmp];
      } else {
        assert SplitFrom(text, sep, start) == [] + rest == rest;
      }
      start := end + 1;
      found := Find(text, sep, start);
    }
    result := result + [text[start..]];
  }

  lemma Regroup(a: seq<string>, b: seq<string>, c: seq<string>)
    ensures (a + b) + c == a + (b + c)
  {
  }

  /** The characters of `s` other than `c`, in order. */
  function Without(s: string, c: char): string
  {
    if s == [] then [] else (if s[0] == c then [] else [s[0]]) + Without(s[1..], c)
  }

  /** The tokens laid end to end. */
  function Concat(tokens: seq<string>): string
  {
    if tokens == [] then [] else tokens[0] + Concat(tokens[1..])
  }

  /** One call always appends at least one token, so the command loop never
      sees an empty list. */
  lemma {:induction false} SplitNotEmpty(text: string, sep: char, start: nat)
    requires start <= |text|
    ensures |SplitFrom(text, sep, start)| >= 1
    decreases |text| - start
  {
    match Find(text, sep, start)
    case None =>
    case Some(end) => SplitNotEmpty(text, sep, end + 1);
  }

  /** Every token but the last is non-empty. */
  predicate NoEmptyBeforeLast(r: seq<string>)
  {
    forall i :: 0 <= i < |r| - 1 ==> r[i] != []
  }

  /** Only the last token can be empty: runs of separators produce nothing. */
  lemma {:induction false} OnlyLastMayBeEmpty(text: string, sep: char, start: nat)
    requires start <= |text|
    ensures NoEmptyBeforeLast(SplitFrom(text, sep, start))
    decreases |text| - start
  {
    match Find(text, sep, start)
    case None =>
    case Some(end) =>
      OnlyLastMayBeEmpty(text, sep, end + 1);
      var rest := SplitFrom(text, sep, end + 1);
      var r := SplitFrom(text, sep, start);
      if end > start {
        var piece := text[start..end];
        assert r == [piece] + rest;
        assert |piece| > 0;
        forall i | 0 <= i < |r| - 1 ensures r[i] != [] {
          if i == 0 {
            assert r[i] == piece;
          } else {
            assert r[i] == rest[i - 1];
          }
        }
      } else {
        assert r == [] + rest;
        assert r == rest;
      }
  }

  /** No token contains the separator. */
  lemma {:induction false} NoSeparatorInTokens(text: string, sep: char, start: nat)
    requires start <= |text|
    ensures forall t :: t in SplitFrom(text, sep, start) ==> sep !in t
    decreases |text| - start
  {
    match Find(text, sep, start)
    case None =>
      assert forall k :: start <= k < |text| ==> text[k] != sep;
      assert sep !in text[start..];
    case Some(end) =>
      NoSeparatorInTokens(text, sep, end + 1);
      assert sep !in text[start..end];
  }

  /** The text comes back as the only token exactly when it holds no separator. */
  lemma NoSeparatorIsSingleToken(text: string, sep: char)
    ensures SplitFrom(text, sep, 0) == [text] <==> sep !in text
  {
    NoSeparatorInTokens(text, sep, 0);
    if sep !in text {
      assert Find(text, sep, 0).None?;
      assert text[0..] == text;
    }
  }

  /** Nothing but separators is lost: the tokens laid end to end are the text
      from `start` with its separators removed. */
  lemma {:induction false} TokensRebuildText(text: string, sep: char, start: nat)
    requires start <= |text|
    ensures Concat(SplitFrom(text, sep, start)) == Without(text[start..], sep)
    decreases |text| - start
  {
    match Find(text, sep, start)
    case None =>
      WithoutAbsent(text[start..], sep);
      assert SplitFrom(text, sep, start) == [text[start..]];
      assert Concat([text[start..]]) == text[start..] + Concat([]);
    case Some(end) =>
      TokensRebuildText(text, sep, end + 1);
      var piece := text[start..end];
      var rest := SplitFrom(text, sep, end + 1);
      assert Concat(SplitFrom(text, sep, start)) == piece + Concat(rest) by {
        ConcatFront(end > start, piece, rest);
      }
      WithoutAbsent(piece, sep);
      WithoutSeparatorAt(text, sep, start, end);
  }

  /** Laying out a token list with an optional empty-or-not first piece. */
  lemma ConcatFront(keep: bool, piece: string, rest: seq<string>)
    requires !keep ==> piece == []
    ensures Concat((if keep then [piece] else []) + rest) == piece + Concat(rest)
  {
    if keep {
      assert ([piece] + rest)[1..] == rest;
    } else {
      assert [] + rest == rest;
    }
  }

  /** Removing separators from the text from `start` when the first one is at `end`. */
  lemma WithoutSeparatorAt(text: string, sep: char, start: nat, end: nat)
    requires start <= end < |text| && text[end] == sep
    ensures Without(text[start..], sep) == Without(text[start..end], sep) + Without(text[end + 1..], sep)
  {
    assert text[start..] == text[start..end] + text[end..];
    WithoutAppend(text[start..end], text[end..], sep);
    assert text[end..][1..] == text[end + 1..];
  }

  lemma {:induction false} WithoutAbsent(s: string, c: char)
    requires forall k :: 0 <= k < |s| ==> s[k] != c
    ensures Without(s, c) == s
  {
    if s != [] {
      WithoutAbsent(s[1..], c);
    }
  }

  lemma {:induction false} WithoutAppend(a: string, b: string, c: char)
    ensures Without(a + b, c) == Without(a, c) + Without(b, c)
  {
    if a != [] {
      assert (a + b)[1..] == a[1..] + b;
      WithoutAppend(a[1..], b, c);
    } else {
      assert a + b == b;
    }
  }
}
