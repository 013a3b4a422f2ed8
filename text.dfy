/**
 * The string operations the ingestion pipeline relies on: ASCII case mapping
 * (standing for Python's `str.lower` and `str.upper`), splitting on a separator
 * (`str.split(sep)`), line splitting (`str.splitlines`) and substring search (`in`).
 */
module Text {

  /** One byte of a file's raw content. */
  newtype byte = x: int | 0 <= x < 256

  function LowerChar(c: char): char {
    if 'A' <= c <= 'Z' then (c as int + 32) as char else c
  }

  function UpperChar(c: char): char {
    if 'a' <= c <= 'z' then (c as int - 32) as char else c
  }

  /** `s.lower()`, restricted to the ASCII letters. */
  function Lower(s: string): (r: string)
    ensures |r| == |s|
    ensures forall i :: 0 <= i < |s| ==> r[i] == LowerChar(s[i])
  {
    seq(|s|, i requires 0 <= i < |s| => LowerChar(s[i]))
  }

  /** `s.upper()`, restricted to the ASCII letters. */
  function Upper(s: string): (r: string)
    ensures |r| == |s|
    ensures forall i :: 0 <= i < |s| ==> r[i] == UpperChar(s[i])
  {
    seq(|s|, i requires 0 <= i < |s| => UpperChar(s[i]))
  }

  /** A string without capital letters is its own lower-case form. */
  lemma LowerOfLowerCase(s: string)
    requires forall i :: 0 <= i < |s| ==> !('A' <= s[i] <= 'Z')
    ensures Lower(s) == s
  {
  }

  /** Upper-casing forgets whether the input was lower-cased first. */
  lemma UpperOfLower(s: string)
    ensures Upper(Lower(s)) == Upper(s)
  {
    assert forall i :: 0 <= i < |s| ==> UpperChar(LowerChar(s[i])) == UpperChar(s[i]);
  }

  /** Lower-casing forgets whether the input was upper-cased first. */
  lemma LowerOfUpper(s: string)
    ensures Lower(Upper(s)) == Lower(s)
  {
    assert forall i :: 0 <= i < |s| ==> LowerChar(UpperChar(s[i])) == LowerChar(s[i]);
  }

  // ---------------------------------------------------------------------------
  // Splitting on a separator
  // ---------------------------------------------------------------------------

  /**
   * `s.split(sep)`: the maximal runs of `s` that do not contain `sep`, in order.
   * There is always at least one part; `n` separators give `n + 1` parts.
   */
  function Split(s: string, sep: char): (parts: seq<string>)
    ensures |parts| >= 1
    ensures forall k :: 0 <= k < |parts| ==> sep !in parts[k]
  {
    if |s| == 0 then [""]
    else
      var rest := Split(s[1..], sep);
      if s[0] == sep then [""] + rest
      else [[s[0]] + rest[0]] + rest[1..]
  }

  /** `sep.join(parts)`. */
  function Join(parts: seq<string>, sep: char): string {
    if |parts| == 0 then ""
    else if |parts| == 1 then parts[0]
    else parts[0] + [sep] + Join(parts[1..], sep)
  }

  /** The last part of a split: what `s.split(sep)[-1]` evaluates to. */
  function LastPart(s: string, sep: char): string {
    var parts := Split(s, sep);
    parts[|parts| - 1]
  }

  /** Joining the parts of a split gives back the string. */
  lemma {:induction false} JoinSplit(s: string, sep: char)
    ensures Join(Split(s, sep), sep) == s
  {
    if |s| > 0 {
      var rest := Split(s[1..], sep);
      JoinSplit(s[1..], sep);
      if s[0] == sep {
        assert Split(s, sep) == [""] + rest;
        assert ([""] + rest)[1..] == rest;
        assert s == [sep] + s[1..];
      } else {
        var parts := [[s[0]] + rest[0]] + rest[1..];
        assert Split(s, sep) == parts;
        if |rest| == 1 {
          assert Join(parts, sep) == [s[0]] + rest[0];
        } else {
          assert parts[1..] == rest[1..];
          assert Join(rest, sep) == rest[0] + [sep] + Join(rest[1..], sep);
          assert Join(parts, sep) == [s[0]] + rest[0] + [sep] + Join(rest[1..], sep);
        }
        assert s == [s[0]] + s[1..];
      }
    }
  }

  /** A prefix free of the separator is glued to the first part of the rest. */
  lemma {:induction false} SplitPrefix(p: string, t: string, sep: char)
    requires sep !in p
    ensures Split(p + t, sep) == [p + Split(t, sep)[0]] + Split(t, sep)[1..]
  {
    if |p| > 0 {
      SplitPrefix(p[1..], t, sep);
      assert (p + t)[1..] == p[1..] + t;
      assert [p[0]] + (p[1..] + Split(t, sep)[0]) == p + Split(t, sep)[0];
    } else {
      assert p + t == t;
      assert p + Split(t, sep)[0] == Split(t, sep)[0];
    }
  }

  /** Splitting a join of separator-free parts gives back the parts. */
  lemma {:induction false} SplitJoin(parts: seq<string>, sep: char)
    requires |parts| >= 1
    requires forall k :: 0 <= k < |parts| ==> sep !in parts[k]
    ensures Split(Join(parts, sep), sep) == parts
  {
    var p := parts[0];
    if |parts| == 1 {
      SplitPrefix(p, "", sep);
      assert p + "" == p;
      assert Split(p, sep) == [p + ""];
    } else {
      var rest := Join(parts[1..], sep);
      SplitJoin(parts[1..], sep);
      SplitPrefix(p, [sep] + rest, sep);
      assert p + [sep] + rest == p + ([sep] + rest);
      assert ([sep] + rest)[1..] == rest;
      assert Split([sep] + rest, sep) == [""] + parts[1..];
      assert p + "" == p;
      assert Split(Join(parts, sep), sep) == [p] + parts[1..];
      assert parts == [p] + parts[1..];
    }
  }

  /** A split string is its earlier parts, a separator, and its last part. */
  lemma SplitLast(s: string, sep: char)
    ensures var parts := Split(s, sep);
      if |parts| == 1 then s == parts[0]
      else s == Join(parts[..|parts| - 1], sep) + [sep] + parts[|parts| - 1]
  {
    var parts := Split(s, sep);
    JoinSplit(s, sep);
    if |parts| > 1 {
      assert parts == parts[..|parts| - 1] + [parts[|parts| - 1]];
      JoinSnoc(parts[..|parts| - 1], sep, parts[|parts| - 1]);
    }
  }

  /**
   * The last part is the longest separator-free suffix: it is a suffix, it holds
   * no separator, and it is either the whole string or preceded by a separator.
   */
  lemma LastPartIsSuffix(s: string, sep: char)
    ensures var last := LastPart(s, sep);
      && |last| <= |s|
      && last == s[|s| - |last|..]
      && sep !in last
      && (|last| == |s| || s[|s| - |last| - 1] == sep)
  {
    SplitLast(s, sep);
  }

  /** The last part of a join of separator-free parts is the last of those parts. */
  lemma LastPartOfJoin(parts: seq<string>, sep: char)
    requires |parts| >= 1
    requires forall k :: 0 <= k < |parts| ==> sep !in parts[k]
    ensures LastPart(Join(parts, sep), sep) == parts[|parts| - 1]
  {
    SplitJoin(parts, sep);
    LastPartOfSplit(Join(parts, sep), sep, parts);
  }

  lemma LastPartOfSplit(s: string, sep: char, parts: seq<string>)
    requires Split(s, sep) == parts
    ensures LastPart(s, sep) == parts[|parts| - 1]
  {
  }

  /** Without a separator the whole string is its only part. */
  lemma NoSeparatorWhole(s: string, sep: char)
    requires sep !in s
    ensures LastPart(s, sep) == s
  {
    LastPartIsSuffix(s, sep);
  }

  /** A string ending with the separator has an empty last part. */
  lemma TrailingSeparatorEmpty(s: string, sep: char)
    requires |s| > 0 && s[|s| - 1] == sep
    ensures LastPart(s, sep) == ""
  {
    LastPartIsSuffix(s, sep);
  }

  // ---------------------------------------------------------------------------
  // Lines
  // ---------------------------------------------------------------------------

  predicate EndsWithNewline(text: string) {
    |text| > 0 && text[|text| - 1] == '\n'
  }

  /**
   * `text.splitlines()` for `\n` line breaks: the text split on `\n`, where a
   * final line break does not open a further empty line.
   */
  function Lines(text: string): (lines: seq<string>)
    ensures forall k :: 0 <= k < |lines| ==> '\n' !in lines[k]
  {
    var parts := Split(text, '\n');
    if parts[|parts| - 1] == "" then parts[..|parts| - 1] else parts
  }

  /** The text as `n` lines each followed by a line break. */
  function Terminated(lines: seq<string>): string {
    if |lines| == 0 then "" else lines[0] + "\n" + Terminated(lines[1..])
  }

  lemma {:induction false} JoinSnoc(parts: seq<string>, sep: char, last: string)
    requires |parts| >= 1
    ensures Join(parts + [last], sep) == Join(parts, sep) + [sep] + last
  {
    if |parts| > 1 {
      JoinSnoc(parts[1..], sep, last);
      assert (parts + [last])[1..] == parts[1..] + [last];
    }
  }

  lemma {:induction false} TerminatedIsJoin(lines: seq<string>)
    ensures Terminated(lines) == Join(lines + [""], '\n')
  {
    if |lines| > 0 {
      TerminatedIsJoin(lines[1..]);
      assert (lines + [""])[1..] == lines[1..] + [""];
    }
  }

  /** Joining the lines (and restoring a final line break) gives back the text. */
  lemma LinesRoundTrip(text: string)
    ensures Join(Lines(text), '\n') + (if EndsWithNewline(text) then "\n" else "") == text
  {
    var parts := Split(text, '\n');
    var n := |parts|;
    var last := parts[n - 1];
    JoinSplit(text, '\n');
    SplitLast(text, '\n');
    if last == "" {
      if n > 1 {
        assert EndsWithNewline(text);
        assert Lines(text) == parts[..n - 1];
      }
    } else {
      assert text[|text| - 1] == last[|last| - 1];
      assert !EndsWithNewline(text);
    }
  }

  /** Lines written out one per line are read back unchanged. */
  lemma LinesOfTerminated(lines: seq<string>)
    requires forall k :: 0 <= k < |lines| ==> '\n' !in lines[k]
    ensures Lines(Terminated(lines)) == lines
  {
    TerminatedIsJoin(lines);
    SplitJoin(lines + [""], '\n');
    assert (lines + [""])[..|lines|] == lines;
  }

  // ---------------------------------------------------------------------------
  // Substrings
  // ---------------------------------------------------------------------------

  /** `needle` occurs in `hay` starting at position `i`. */
  ghost predicate OccursAt(hay: string, needle: string, i: int) {
    0 <= i && i + |needle| <= |hay| && hay[i..i + |needle|] == needle
  }

  /** `hay.startswith(needle)`, compared character by character. */
  function StartsWith(hay: string, needle: string): bool {
    |needle| == 0 || (|hay| > 0 && hay[0] == needle[0] && StartsWith(hay[1..], needle[1..]))
  }

  /** The haystack starts with the needle exactly when its prefix of the needle's length is the needle. */
  lemma {:induction false} StartsWithSpec(hay: string, needle: string)
    ensures StartsWith(hay, needle) <==> |needle| <= |hay| && hay[..|needle|] == needle
  {
    if |needle| > 0 && |hay| > 0 {
      StartsWithSpec(hay[1..], needle[1..]);
      if |needle| <= |hay| && hay[..|needle|] == needle {
        assert hay[1..][..|needle| - 1] == needle[1..];
      }
      if StartsWith(hay, needle) {
        assert hay[..|needle|] == [hay[0]] + hay[1..][..|needle| - 1];
        assert needle == [needle[0]] + needle[1..];
      }
    }
  }

  /** Python's `needle in hay` for strings: try each starting position in turn. */
  function Contains(hay: string, needle: string): bool
    decreases |hay|
  {
    if |hay| < |needle| then false
    else if StartsWith(hay, needle) then true
    else Contains(hay[1..], needle)
  }

  /** `needle in hay` holds exactly when the needle occurs at some position of the haystack. */
  lemma {:induction false} ContainsSpec(hay: string, needle: string)
    ensures Contains(hay, needle) <==> exists i :: OccursAt(hay, needle, i)
    decreases |hay|
  {
    StartsWithSpec(hay, needle);
    if |hay| < |needle| {
    } else if StartsWith(hay, needle) {
      assert OccursAt(hay, needle, 0);
    } else {
      ContainsSpec(hay[1..], needle);
      forall i | OccursAt(hay, needle, i) ensures i >= 1 && OccursAt(hay[1..], needle, i - 1) {
        assert hay[1..][i - 1..i - 1 + |needle|] == hay[i..i + |needle|];
      }
      forall i | OccursAt(hay[1..], needle, i) ensures OccursAt(hay, needle, i + 1) {
        assert hay[1..][i..i + |needle|] == hay[i + 1..i + 1 + |needle|];
      }
    }
  }

  /** A needle with a character the haystack lacks does not occur in it. */
  lemma MissingCharNotContained(hay: string, needle: string, j: nat)
    requires j < |needle| && needle[j] !in hay
    ensures !Contains(hay, needle)
  {
    ContainsSpec(hay, needle);
    forall i | 0 <= i && i + |needle| <= |hay| ensures !OccursAt(hay, needle, i) {
      assert hay[i..i + |needle|][j] == hay[i + j];
    }
  }
}
