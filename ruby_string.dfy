/**
 * Ruby's `String#split` with a one-character separator other than a space,
 * and no limit. (With `' '` Ruby instead splits on runs of whitespace; that
 * form is not modelled.)
 *
 * Ruby first cuts the string at every separator, keeping empty fields, and
 * then drops the empty fields at the END of the result (leading and interior
 * empty fields stay). So `"a::b".split(':')` is `["a", "", "b"]`,
 * `"cron_jobs:".split(':')` is `["cron_jobs"]` and `"".split(':')` is `[]`.
 */
module RubyString {

  /** Every field of `s` between occurrences of `sep`, empty fields included. */
  function Fields(s: string, sep: char): (r: seq<string>)
    ensures |r| >= 1
    ensures forall i :: 0 <= i < |r| ==> sep !in r[i]
    ensures |s| > 0 && s[0] != sep ==> r[0] != ""
    decreases |s|
  {
    if s == "" then [""]
    else
      var rest := Fields(s[1..], sep);
      if s[0] == sep then [""] + rest
      else [[s[0]] + rest[0]] + rest[1..]
  }

  /** The inverse of `Fields`: the fields glued back together with `sep`. */
  function Join(fs: seq<string>, sep: char): string
    requires |fs| >= 1
    decreases |fs|
  {
    if |fs| == 1 then fs[0] else fs[0] + [sep] + Join(fs[1..], sep)
  }

  /** Field `j` is non-empty and every field after it is empty. */
  ghost predicate LastNonEmptyAt(fs: seq<string>, j: int)
  {
    0 <= j < |fs| && fs[j] != "" && forall k :: j < k < |fs| ==> fs[k] == ""
  }

  /** `fs` without its trailing empty fields. */
  function DropTrailingEmpty(fs: seq<string>): (r: seq<string>)
    ensures r <= fs
    ensures r == [] || LastNonEmptyAt(fs, |r| - 1)
    ensures forall k :: |r| <= k < |fs| ==> fs[k] == ""
    decreases |fs|
  {
    if fs == [] then []
    else if fs[|fs| - 1] == "" then DropTrailingEmpty(fs[..|fs| - 1])
    else fs
  }

  /** Ruby's `s.split(sep)`. */
  function Split(s: string, sep: char): (r: seq<string>)
    ensures r <= Fields(s, sep)
    ensures forall i :: 0 <= i < |r| ==> sep !in r[i]
    ensures r == [] || LastNonEmptyAt(Fields(s, sep), |r| - 1)
    ensures forall k :: |r| <= k < |Fields(s, sep)| ==> Fields(s, sep)[k] == ""
    ensures |s| > 0 && s[0] != sep ==> |r| >= 1
  {
    DropTrailingEmpty(Fields(s, sep))
  }

  /** A string without the separator is a single field. */
  lemma {:induction false} FieldsOfWord(w: string, sep: char)
    requires sep !in w
    ensures Fields(w, sep) == [w]
  {
    if w != "" {
      FieldsOfWord(w[1..], sep);
      assert [w[0]] + w[1..] == w;
    }
  }

  /** Cutting at the first separator peels off the word before it. */
  lemma {:induction false} FieldsAfterWord(w: string, sep: char, rest: string)
    requires sep !in w
    ensures Fields(w + [sep] + rest, sep) == [w] + Fields(rest, sep)
  {
    var s := w + [sep] + rest;
    if w == "" {
      assert s == [sep] + rest;
      assert s[1..] == rest;
    } else {
      assert s[1..] == w[1..] + [sep] + rest;
      FieldsAfterWord(w[1..], sep, rest);
      assert [w[0]] + w[1..] == w;
    }
  }

  /** Joining the fields of a string gives the string back. */
  lemma {:induction false} JoinFields(s: string, sep: char)
    ensures Join(Fields(s, sep), sep) == s
    decreases |s|
  {
    if s != "" {
      var rest := Fields(s[1..], sep);
      JoinFields(s[1..], sep);
      if s[0] == sep {
        assert Fields(s, sep)[1..] == rest;
        assert s == [sep] + s[1..];
      } else if |rest| == 1 {
        assert s == [s[0]] + s[1..];
      } else {
        var fs := Fields(s, sep);
        assert fs[1..] == rest[1..];
        assert Join(rest, sep) == rest[0] + [sep] + Join(rest[1..], sep);
        assert s == [s[0]] + s[1..];
      }
    }
  }

  /** Splitting a join of separator-free fields gives the fields back. */
  lemma {:induction false} FieldsOfJoin(fs: seq<string>, sep: char)
    requires |fs| >= 1
    requires forall i :: 0 <= i < |fs| ==> sep !in fs[i]
    ensures Fields(Join(fs, sep), sep) == fs
    decreases |fs|
  {
    if |fs| == 1 {
      FieldsOfWord(fs[0], sep);
    } else {
      FieldsOfJoin(fs[1..], sep);
      FieldsAfterWord(fs[0], sep, Join(fs[1..], sep));
      assert [fs[0]] + fs[1..] == fs;
    }
  }
}
