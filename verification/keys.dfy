/**
 * Dotted keys. A key such as "a.b.c" is split on '.' the way Ruby's
 * `String#split('.')` does it: into the fields between separators, with
 * trailing empty fields removed (so "" and "..." split into no segments).
 */
module DottedKey {

  const Separator: char := '.'

  /** A single segment: no separator inside. */
  predicate Plain(s: string) {
    Separator !in s
  }

  predicate AllPlain(xs: seq<string>) {
    forall i :: 0 <= i < |xs| ==> Plain(xs[i])
  }

  /** Every field of `s`, empty ones included: one more field than `s` has
      separators. */
  function Fields(s: string): (r: seq<string>)
    ensures |r| >= 1
    ensures AllPlain(r)
    decreases |s|
  {
    if |s| == 0 then [""]
    else if s[0] == Separator then [""] + Fields(s[1..])
    else
      var rest := Fields(s[1..]);
      [[s[0]] + rest[0]] + rest[1..]
  }

  /** Joins segments with the separator (`Array#join('.')`). */
  function Join(xs: seq<string>): string
    decreases |xs|
  {
    if |xs| == 0 then ""
    else if |xs| == 1 then xs[0]
    else xs[0] + [Separator] + Join(xs[1..])
  }

  /** Joining the fields of a key gives the key back. */
  lemma {:induction false} JoinFields(s: string)
    ensures Join(Fields(s)) == s
    decreases |s|
  {
    if |s| > 0 {
      JoinFields(s[1..]);
      var rest := Fields(s[1..]);
      if s[0] == Separator {
        assert ([""] + rest)[1..] == rest;
        assert [s[0]] + s[1..] == s;
      } else {
        var r := [[s[0]] + rest[0]] + rest[1..];
        assert r[1..] == rest[1..];
        if |rest| == 1 {
          assert s == [s[0]] + rest[0];
        } else {
          assert Join(rest) == rest[0] + [Separator] + Join(rest[1..]);
          assert s == [s[0]] + s[1..];
        }
      }
    }
  }

  /** Prefixing separator-free text to a string extends its first field. */
  lemma {:induction false} FieldsOfPlainPrefix(a: string, t: string)
    requires Plain(a)
    ensures Fields(a + t) == [a + Fields(t)[0]] + Fields(t)[1..]
    decreases |a|
  {
    if |a| == 0 {
      assert a + t == t;
      assert a + Fields(t)[0] == Fields(t)[0];
      assert Fields(t) == [Fields(t)[0]] + Fields(t)[1..];
    } else {
      FieldsOfPlainPrefix(a[1..], t);
      assert (a + t)[1..] == a[1..] + t;
      assert (a + t)[0] == a[0];
      assert [a[0]] + (a[1..] + Fields(t)[0]) == a + Fields(t)[0];
    }
  }

  /** Splitting the join of separator-free segments gives the segments back. */
  lemma {:induction false} FieldsJoin(xs: seq<string>)
    requires |xs| >= 1 && AllPlain(xs)
    ensures Fields(Join(xs)) == xs
    decreases |xs|
  {
    if |xs| == 1 {
      FieldsOfPlainPrefix(xs[0], "");
      assert xs[0] + "" == xs[0];
    } else {
      FieldsJoin(xs[1..]);
      var t := [Separator] + Join(xs[1..]);
      assert Join(xs) == xs[0] + t;
      FieldsOfPlainPrefix(xs[0], t);
      assert t[1..] == Join(xs[1..]);
      assert Fields(t) == [""] + xs[1..];
      assert xs[0] + "" == xs[0];
      assert xs == [xs[0]] + xs[1..];
    }
  }

  /** Removes trailing empty segments. */
  function DropTrailingEmpty(xs: seq<string>): (r: seq<string>)
    ensures |r| <= |xs| && r == xs[..|r|]
    ensures |r| == 0 || r[|r| - 1] != ""
    ensures forall i :: |r| <= i < |xs| ==> xs[i] == ""
    decreases |xs|
  {
    if |xs| > 0 && xs[|xs| - 1] == "" then DropTrailingEmpty(xs[..|xs| - 1]) else xs
  }

  /** `key.split('.')`: the fields of the key without its trailing empty
      fields. */
  function Split(key: string): (r: seq<string>)
    ensures AllPlain(r)
    ensures |r| == 0 || r[|r| - 1] != ""
    ensures |r| <= |Fields(key)| && r == Fields(key)[..|r|]
    ensures forall i :: |r| <= i < |Fields(key)| ==> Fields(key)[i] == ""
  {
    DropTrailingEmpty(Fields(key))
  }

  /** A key written as separator-free segments, the last one non-empty,
      splits back into exactly those segments. */
  lemma SplitJoin(xs: seq<string>)
    requires AllPlain(xs)
    requires |xs| == 0 || xs[|xs| - 1] != ""
    ensures Split(Join(xs)) == xs
  {
    if |xs| == 0 {
      assert Fields("") == [""];
    } else {
      FieldsJoin(xs);
    }
  }

  /** A key without separators is a single segment (or none when empty). */
  lemma SplitPlain(key: string)
    requires Plain(key)
    ensures Split(key) == if key == "" then [] else [key]
  {
    SplitJoin(if key == "" then [] else [key]);
  }
}
