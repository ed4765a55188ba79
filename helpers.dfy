/**
 * The string helpers of BoardApi/Helpers.cs: the container-name sanitiser and
 * the extension stripper. `ReadFully` copies a stream and is not modelled.
 */
module Helpers {
  import opened Wrappers
  import opened Models

  /** A character the sanitiser keeps: `[0-9A-Za-z-]`. */
  predicate IsAllowed(c: char)
  {
    ('0' <= c <= '9') || ('A' <= c <= 'Z') || ('a' <= c <= 'z') || c == '-'
  }

  /** A character of a sanitised container name: `[0-9a-z-]`. */
  predicate IsContainerChar(c: char)
  {
    ('0' <= c <= '9') || ('a' <= c <= 'z') || c == '-'
  }

  predicate IsContainerName(s: string)
  {
    forall i :: 0 <= i < |s| ==> IsContainerChar(s[i])
  }

  /** Invariant-culture lowercasing of one character, restricted to ASCII. */
  function LowerChar(c: char): char
  {
    if 'A' <= c <= 'Z' then (c as int - 'A' as int + 'a' as int) as char else c
  }

  /** `string.ToLower()`, character by character. */
  function ToLower(s: string): (r: string)
    ensures |r| == |s|
    ensures forall i :: 0 <= i < |s| ==> r[i] == LowerChar(s[i])
  {
    seq(|s|, i requires 0 <= i < |s| => LowerChar(s[i]))
  }

  /** The allowed characters of `s`, in input order (the `Where` filter). */
  function KeepAllowed(s: string): string
  {
    if s == [] then []
    else KeepAllowed(s[..|s| - 1]) + (if IsAllowed(s[|s| - 1]) then [s[|s| - 1]] else [])
  }

  /** What `ToValidContainerName` returns for `s`. */
  function ContainerName(s: string): string
  {
    ToLower(KeepAllowed(s))
  }

  /** `ToValidContainerName`: append each allowed character to a builder, then lowercase. */
  method ToValidContainerName(str: string) returns (name: string)
    ensures name == ContainerName(str)
  {
    var sb := "";
    for i := 0 to |str|
      invariant sb == KeepAllowed(str[..i])
    {
      assert str[..i + 1][..i] == str[..i];
      if IsAllowed(str[i]) {
        sb := sb + [str[i]];
      }
    }
    assert str[..|str|] == str;
    name := ToLower(sb);
  }

  lemma KeepAllowedSnoc(s: string, c: char)
    ensures KeepAllowed(s + [c]) == KeepAllowed(s) + if IsAllowed(c) then [c] else []
  {
    assert (s + [c])[..|s|] == s;
  }

  lemma {:induction false} KeepAllowedOnlyAllowed(s: string)
    ensures forall i :: 0 <= i < |KeepAllowed(s)| ==> IsAllowed(KeepAllowed(s)[i])
  {
    if s != [] {
      KeepAllowedOnlyAllowed(s[..|s| - 1]);
    }
  }

  /** A sanitised name consists of `[0-9a-z-]` only. */
  lemma ContainerNameAlphabet(s: string)
    ensures IsContainerName(ContainerName(s))
  {
    KeepAllowedOnlyAllowed(s);
  }

  lemma {:induction false} KeepAllowedConcat(s: string, t: string)
    ensures KeepAllowed(s + t) == KeepAllowed(s) + KeepAllowed(t)
    decreases |t|
  {
    if t == [] {
      assert s + t == s;
    } else {
      var n := |t| - 1;
      assert (s + t)[..|s + t| - 1] == s + t[..n];
      KeepAllowedConcat(s, t[..n]);
    }
  }

  /**
   * The sanitiser works character by character: the name of a concatenation is
   * the concatenation of the names, and one character is kept, lowercased, exactly
   * when it is allowed. Together these say that the result is the lowercased
   * subsequence of the allowed characters, in input order.
   */
  lemma ContainerNameConcat(s: string, t: string)
    ensures ContainerName(s + t) == ContainerName(s) + ContainerName(t)
  {
    KeepAllowedConcat(s, t);
  }

  lemma ContainerNameOfChar(c: char)
    ensures ContainerName([c]) == if IsAllowed(c) then [LowerChar(c)] else []
  {
    assert [c][..0] == [];
    assert KeepAllowed([c]) == if IsAllowed(c) then [c] else [];
  }

  /** The length of the sanitised name is the number of allowed characters. */
  lemma {:induction false} ContainerNameLength(s: string)
    ensures |ContainerName(s)| == |set i | 0 <= i < |s| && IsAllowed(s[i])|
  {
    if s != [] {
      var n := |s| - 1;
      var p := s[..n];
      ContainerNameLength(p);
      var before := set i | 0 <= i < |p| && IsAllowed(p[i]);
      var after := set i | 0 <= i < |s| && IsAllowed(s[i]);
      if IsAllowed(s[n]) {
        assert after == before + {n};
        assert n !in before;
      } else {
        assert after == before;
      }
    }
  }

  lemma {:induction false} KeepAllowedFixed(s: string)
    requires forall i :: 0 <= i < |s| ==> IsAllowed(s[i])
    ensures KeepAllowed(s) == s
  {
    if s != [] {
      KeepAllowedFixed(s[..|s| - 1]);
    }
  }

  /** A name already made of `[0-9a-z-]` is returned unchanged, and only such a name is. */
  lemma ContainerNameFixedPoint(s: string)
    ensures ContainerName(s) == s <==> IsContainerName(s)
  {
    if IsContainerName(s) {
      KeepAllowedFixed(s);
      assert ToLower(s) == s;
    } else {
      ContainerNameAlphabet(s);
    }
  }

  /** Sanitising twice is sanitising once. */
  lemma ContainerNameIdempotent(s: string)
    ensures ContainerName(ContainerName(s)) == ContainerName(s)
  {
    ContainerNameAlphabet(s);
    ContainerNameFixedPoint(ContainerName(s));
  }

  /** The name is empty exactly when no character of the input is allowed. */
  lemma {:induction false} ContainerNameEmpty(s: string)
    ensures ContainerName(s) == "" <==> forall i :: 0 <= i < |s| ==> !IsAllowed(s[i])
  {
    if s != [] {
      var n := |s| - 1;
      ContainerNameEmpty(s[..n]);
      assert forall i :: 0 <= i < n ==> s[..n][i] == s[i];
    }
  }

  /** `string.LastIndexOf(char)`: -1 when the character does not occur. */
  function LastIndexOf(s: string, c: char): (k: int)
    ensures -1 <= k < |s|
    ensures k >= 0 ==> s[k] == c
    ensures forall j :: k < j < |s| ==> s[j] != c
  {
    if s == [] then -1
    else if s[|s| - 1] == c then |s| - 1
    else LastIndexOf(s[..|s| - 1], c)
  }

  /**
   * `NoFileExt`: `file.Substring(0, file.LastIndexOf('.'))`. Without a '.' the
   * length passed to `Substring` is -1 and it throws.
   */
  function NoFileExt(file: string): (r: Result<string, Error>)
    ensures r.Failure? <==> '.' !in file
    ensures r.Failure? ==> r.error == ArgumentOutOfRange(file)
    ensures r.Success? ==>
      var n := |r.value|;
      && n < |file| && file[..n] == r.value && file[n] == '.'
      && forall j :: n < j < |file| ==> file[j] != '.'
  {
    var k := LastIndexOf(file, '.');
    if k < 0 then
      Failure(ArgumentOutOfRange(file))
    else
      Success(file[..k])
  }

  /** Stripping the extension of `name + "." + ext`, where `ext` has no '.', gives `name` back. */
  lemma NoFileExtRoundTrip(name: string, ext: string)
    requires '.' !in ext
    ensures NoFileExt(name + "." + ext) == Success(name)
  {
    var file := name + "." + ext;
    assert file[|name|] == '.';
    assert forall j :: |name| < j < |file| ==> file[j] == ext[j - |name| - 1];
    assert file[..|name|] == name;
  }

  /** The blob written for image `n` by `PostImage` is found again by the join under `n`. */
  lemma NoFileExtPng(n: string)
    ensures NoFileExt(n + ".png") == Success(n)
  {
    assert n + ".png" == n + "." + "png";
    NoFileExtRoundTrip(n, "png");
  }
}
