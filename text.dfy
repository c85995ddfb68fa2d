/** Version strings: JavaScript's `split(".")` and the major.minor truncation
    that the version fallback retries with. */
module Text {

  /** `s.split(sep)` for a one-character separator, as JavaScript computes it:
      the empty string gives `[""]`, and two adjacent separators give an empty
      part between them. */
  function Split(s: string, sep: char): (parts: seq<string>)
    ensures |parts| >= 1
  {
    if s == [] then [""]
    else
      var rest := Split(s[1..], sep);
      if s[0] == sep then [""] + rest
      else [[s[0]] + rest[0]] + rest[1..]
  }

  /** `parts.join(sep)`: the parts with one separator between neighbours. */
  function Join(parts: seq<string>, sep: char): string
    requires |parts| >= 1
  {
    if |parts| == 1 then parts[0] else parts[0] + [sep] + Join(parts[1..], sep)
  }

  /** No part holds the separator. */
  lemma {:induction false} SplitPartsHaveNoSeparator(s: string, sep: char)
    ensures forall i :: 0 <= i < |Split(s, sep)| ==> sep !in Split(s, sep)[i]
  {
    if s != [] {
      SplitPartsHaveNoSeparator(s[1..], sep);
      var rest := Split(s[1..], sep);
      if s[0] != sep {
        var parts := Split(s, sep);
        assert parts[0] == [s[0]] + rest[0];
        assert forall i :: 1 <= i < |parts| ==> parts[i] == rest[i];
      }
    }
  }

  /** There is one part more than there are separators. */
  lemma {:induction false} SplitCountsSeparators(s: string, sep: char)
    ensures |Split(s, sep)| == multiset(s)[sep] + 1
  {
    if s != [] {
      SplitCountsSeparators(s[1..], sep);
      assert s == [s[0]] + s[1..];
    }
  }

  /** Splitting loses nothing: joining the parts back gives the input. */
  lemma {:induction false} JoinSplit(s: string, sep: char)
    ensures Join(Split(s, sep), sep) == s
  {
    if s != [] {
      var rest := Split(s[1..], sep);
      JoinSplit(s[1..], sep);
      assert s == [s[0]] + s[1..];
      if s[0] == sep {
        assert Split(s, sep) == [""] + rest;
        assert ([""] + rest)[1..] == rest;
      } else if |rest| == 1 {
        assert Split(s, sep) == [[s[0]] + rest[0]];
      } else {
        var parts := Split(s, sep);
        assert parts[0] == [s[0]] + rest[0];
        assert parts[1..] == rest[1..];
        assert Join(rest, sep) == rest[0] + [sep] + Join(rest[1..], sep);
      }
    }
  }

  /** A string without the separator is a single part. */
  lemma {:induction false} SplitWithoutSeparator(s: string, sep: char)
    requires sep !in s
    ensures Split(s, sep) == [s]
  {
    if s != [] {
      SplitWithoutSeparator(s[1..], sep);
      assert s == [s[0]] + s[1..];
    }
  }

  /** A separator after a part `a` without one splits `a` off. */
  lemma {:induction false} SplitAfterPart(a: string, b: string, sep: char)
    requires sep !in a
    ensures Split(a + [sep] + b, sep) == [a] + Split(b, sep)
  {
    if a == [] {
      assert a + [sep] + b == [sep] + b;
      SplitCons(sep, b, sep);
    } else {
      var c, a' := a[0], a[1..];
      SplitAfterPart(a', b, sep);
      assert a == [c] + a';
      assert a + [sep] + b == [c] + (a' + [sep] + b);
      SplitCons(c, a' + [sep] + b, sep);
      var r := [a'] + Split(b, sep);
      assert r[0] == a' && r[1..] == Split(b, sep);
    }
  }

  /** One step of the split, for a string given by its first character. */
  lemma SplitCons(c: char, rest: string, sep: char)
    ensures Split([c] + rest, sep) ==
      if c == sep then [""] + Split(rest, sep)
      else [[c] + Split(rest, sep)[0]] + Split(rest, sep)[1..]
  {
    assert ([c] + rest)[0] == c && ([c] + rest)[1..] == rest;
  }

  /** The version the fallback retries with: `parts[0] + "." + parts[1]`.
      It splits into exactly the first two parts of the input, so a second
      truncation is never attempted. */
  function MajorMinor(version: string): (r: string)
    requires |Split(version, '.')| >= 2
    ensures Split(r, '.') == [Split(version, '.')[0], Split(version, '.')[1]]
  {
    var parts := Split(version, '.');
    SplitPartsHaveNoSeparator(version, '.');
    SplitAfterPart(parts[0], parts[1], '.');
    SplitWithoutSeparator(parts[1], '.');
    parts[0] + "." + parts[1]
  }

  /** Truncation drops the patch component and everything after it:
      "1.17.1" and "1.17.1.2" both become "1.17". */
  lemma MajorMinorDropsPatch(major: string, minor: string, rest: string)
    requires '.' !in major && '.' !in minor
    ensures |Split(major + "." + minor + "." + rest, '.')| >= 3
    ensures MajorMinor(major + "." + minor + "." + rest) == major + "." + minor
  {
    var v := major + "." + minor + "." + rest;
    assert v == major + ['.'] + (minor + ['.'] + rest);
    SplitAfterPart(major, minor + ['.'] + rest, '.');
    SplitAfterPart(minor, rest, '.');
  }

  lemma MajorMinorExamples()
    ensures |Split("1.17.1", '.')| >= 3 && MajorMinor("1.17.1") == "1.17"
    ensures |Split("1.17.1.2", '.')| >= 3 && MajorMinor("1.17.1.2") == "1.17"
  {
    MajorMinorDropsPatch("1", "17", "1");
    assert "1.17.1" == "1" + "." + "17" + "." + "1";
    MajorMinorDropsPatch("1", "17", "1.2");
    assert "1.17.1.2" == "1" + "." + "17" + "." + "1.2";
  }
}
