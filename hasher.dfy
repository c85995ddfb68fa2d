/** The cleaning step of the content hasher: `nix-prefetch-url` prints the
    digest followed by a line break, and every `\n` and `\r` of that output is
    removed before the digest is embedded in the manifest. */
module Hasher {

  predicate IsLineBreak(c: char) {
    c == '\n' || c == '\r'
  }

  /** `out.replace(/[\n\r]/g, '')`. */
  function CleanHash(out: string): (r: string)
    ensures forall i :: 0 <= i < |r| ==> !IsLineBreak(r[i])
    ensures |r| <= |out|
  {
    if out == [] then []
    else (if IsLineBreak(out[0]) then [] else [out[0]]) + CleanHash(out[1..])
  }

  /** Cleaning works character by character, so it distributes over
      concatenation: the kept characters stay in their order. */
  lemma {:induction false} CleanHashAppend(a: string, b: string)
    ensures CleanHash(a + b) == CleanHash(a) + CleanHash(b)
  {
    if a == [] {
      assert a + b == b;
    } else {
      assert (a + b)[0] == a[0];
      assert (a + b)[1..] == a[1..] + b;
      CleanHashAppend(a[1..], b);
    }
  }

  /** Every character other than a line break is kept as often as it occurs,
      and no line break is left. */
  lemma {:induction false} CleanHashCounts(out: string, c: char)
    ensures multiset(CleanHash(out))[c] == if IsLineBreak(c) then 0 else multiset(out)[c]
  {
    if out != [] {
      CleanHashCounts(out[1..], c);
      assert out == [out[0]] + out[1..];
    }
  }

  /** A string without line breaks is left as it is. */
  lemma {:induction false} CleanHashKeepsCleanText(s: string)
    requires forall i :: 0 <= i < |s| ==> !IsLineBreak(s[i])
    ensures CleanHash(s) == s
  {
    if s != [] {
      CleanHashKeepsCleanText(s[1..]);
      assert s == [s[0]] + s[1..];
    }
  }

  /** Cleaning twice is cleaning once. */
  lemma CleanHashIdempotent(out: string)
    ensures CleanHash(CleanHash(out)) == CleanHash(out)
  {
    CleanHashKeepsCleanText(CleanHash(out));
  }

  /** The usual output of the prefetcher, a digest and a newline, gives the
      digest. */
  lemma CleanHashStripsNewline(digest: string)
    requires forall i :: 0 <= i < |digest| ==> !IsLineBreak(digest[i])
    ensures CleanHash(digest + "\n") == digest
  {
    CleanHashAppend(digest, "\n");
    CleanHashKeepsCleanText(digest);
  }
}
