/**
 * `sanitize_filename` of the command-line entry point: the characters that
 * are unsafe in file names become `_`, the name is cut to 100 characters and
 * then stripped of whitespace.
 */
module Cli {
  import opened Wrappers
  import opened Text

  /** The characters replaced, in the order the loop visits them. */
  const Unsafe: string := "<>:\"/\\|?*"
  const MaxNameLength: nat := 100

  /** The name after the first `k` unsafe characters were replaced. */
  function ReplacedUpTo(name: string, k: nat): string
    requires k <= |Unsafe|
  {
    if k == 0 then name else ReplaceAll(ReplacedUpTo(name, k - 1), [Unsafe[k - 1]], "_")
  }

  /** What `sanitize_filename(name)` returns. */
  function Sanitized(name: string): (r: string)
    ensures |r| <= MaxNameLength && IsStripped(r)
  {
    Strip(Prefix(ReplacedUpTo(name, |Unsafe|), MaxNameLength))
  }

  method SanitizeFilename(name: string) returns (r: string)
    ensures r == Sanitized(name)
    ensures forall c :: c in r ==> c !in Unsafe
  {
    var current := name;
    for k := 0 to |Unsafe|
      invariant current == ReplacedUpTo(name, k)
    {
      current := ReplaceAll(current, [Unsafe[k]], "_");
    }
    if |current| > MaxNameLength {
      current := current[..MaxNameLength];
    } else {
      assert current[..|current|] == current;
    }
    r := Strip(current);
    SanitizedIsSafe(name);
  }

  // ---------------------------------------------------------------- what the replacements do

  /** A character as it stands once the first `k` unsafe characters were replaced. */
  function SafeCharUpTo(c: char, k: nat): char
    requires k <= |Unsafe|
  {
    if c in Unsafe[..k] then '_' else c
  }

  /** Replacing one character by one character keeps the length and every other character. */
  lemma {:induction false} SubstituteOneChar(s: string, c: char, d: char)
    ensures |SubstituteChar(s, c, [d])| == |s|
    ensures forall i :: 0 <= i < |s| ==> SubstituteChar(s, c, [d])[i] == if s[i] == c then d else s[i]
    decreases |s|
  {
    if |s| > 0 {
      SubstituteOneChar(s[1..], c, d);
      var t := SubstituteChar(s, c, [d]);
      assert t == [if s[0] == c then d else s[0]] + SubstituteChar(s[1..], c, [d]);
      forall i | 0 < i < |s|
        ensures t[i] == if s[i] == c then d else s[i]
      {
        assert s[i] == s[1..][i - 1];
      }
    }
  }

  /** After `k` steps, every character is either kept or, when among the first `k` unsafe ones, is `_`. */
  lemma {:induction false} ReplacedUpToChars(name: string, k: nat)
    requires k <= |Unsafe|
    ensures |ReplacedUpTo(name, k)| == |name|
    ensures forall i :: 0 <= i < |name| ==> ReplacedUpTo(name, k)[i] == SafeCharUpTo(name[i], k)
    decreases k
  {
    if k > 0 {
      ReplacedUpToChars(name, k - 1);
      var prev := ReplacedUpTo(name, k - 1);
      var c := Unsafe[k - 1];
      ReplaceCharIsSubstitute(prev, c, "_");
      SubstituteOneChar(prev, c, '_');
      assert Unsafe[..k] == Unsafe[..k - 1] + [c];
      forall i | 0 <= i < |name|
        ensures ReplacedUpTo(name, k)[i] == SafeCharUpTo(name[i], k)
      {
        assert '_' !in Unsafe[..k - 1];
      }
    }
  }

  /** The replacement loop maps each unsafe character to `_` and keeps every other character in place. */
  lemma ReplacedChars(name: string)
    ensures |ReplacedUpTo(name, |Unsafe|)| == |name|
    ensures forall i :: 0 <= i < |name| ==>
      ReplacedUpTo(name, |Unsafe|)[i] == if name[i] in Unsafe then '_' else name[i]
  {
    ReplacedUpToChars(name, |Unsafe|);
    assert Unsafe[..|Unsafe|] == Unsafe;
  }

  // ---------------------------------------------------------------- properties of the result

  /** `strip()` only removes characters. */
  lemma StripKeepsChars(s: string)
    ensures forall c :: c in Strip(s) ==> c in s
  {
    StripTrims(s);
    var k :| TrimmedAt(s, Strip(s), k);
    forall c | c in Strip(s)
      ensures c in s
    {
      var j :| 0 <= j < |Strip(s)| && Strip(s)[j] == c;
      assert s[k + j] == c;
    }
  }

  /** No unsafe character survives. */
  lemma SanitizedIsSafe(name: string)
    ensures forall c :: c in Sanitized(name) ==> c !in Unsafe
  {
    var replaced := ReplacedUpTo(name, |Unsafe|);
    ReplacedChars(name);
    assert forall c :: c in replaced ==> c !in Unsafe by {
      forall c | c in replaced
        ensures c !in Unsafe
      {
        var i :| 0 <= i < |replaced| && replaced[i] == c;
        assert c == if name[i] in Unsafe then '_' else name[i];
      }
    }
    var cut := Prefix(replaced, MaxNameLength);
    assert forall c :: c in cut ==> c in replaced;
    StripKeepsChars(cut);
  }

  /** A name that is already safe, short and stripped is returned unchanged. */
  lemma {:induction false} SanitizeKeepsCleanName(name: string)
    requires forall c :: c in name ==> c !in Unsafe
    requires |name| <= MaxNameLength && IsStripped(name)
    ensures Sanitized(name) == name
  {
    ReplacedChars(name);
    assert ReplacedUpTo(name, |Unsafe|) == name;
    StripStripped(name);
  }

  /** Sanitizing twice is sanitizing once. */
  lemma SanitizeIdempotent(name: string)
    ensures Sanitized(Sanitized(name)) == Sanitized(name)
  {
    SanitizedIsSafe(name);
    SanitizeKeepsCleanName(Sanitized(name));
  }
}
