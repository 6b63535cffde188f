/**
 The address-shape check of the validator: the anchored pattern
 `[a-zA-Z0-9_.+-]+ @ [a-zA-Z0-9-]+ \. [a-zA-Z0-9-.]+` followed by `$`,
 tried with Python's `re.match`.

 `Matches` states what the pattern accepts, with the `$` rule of Python's
 `re` module (end of text, or just before one final newline). `CheckSyntax`
 is the executable first-occurrence check the pipeline runs; the two are
 proved to agree on every string.
 */
module Syntax {
  import opened Wrappers
  import opened Text

  /** The three bracketed character classes of the pattern, in order. */
  datatype CharClass =
    | LocalChar   // [a-zA-Z0-9_.+-]
    | LabelChar   // [a-zA-Z0-9-]
    | TailChar    // [a-zA-Z0-9-.]  (the '-' after the range 0-9 is literal)

  predicate IsAsciiAlnum(ch: char) {
    'a' <= ch <= 'z' || 'A' <= ch <= 'Z' || '0' <= ch <= '9'
  }

  predicate InClass(ch: char, k: CharClass) {
    match k
    case LocalChar => IsAsciiAlnum(ch) || ch == '_' || ch == '.' || ch == '+' || ch == '-'
    case LabelChar => IsAsciiAlnum(ch) || ch == '-'
    case TailChar => IsAsciiAlnum(ch) || ch == '-' || ch == '.'
  }

  /** Every character of `s` belongs to class `k`. */
  predicate AllIn(s: string, k: CharClass)
    decreases |s|
  {
    |s| == 0 || (InClass(s[0], k) && AllIn(s[1..], k))
  }

  /** The recursive definition agrees with the pointwise one. */
  lemma {:induction false} AllInIff(s: string, k: CharClass)
    ensures AllIn(s, k) <==> forall i :: 0 <= i < |s| ==> InClass(s[i], k)
    decreases |s|
  {
    if |s| > 0 {
      AllInIff(s[1..], k);
      assert forall i :: 0 < i < |s| ==> s[1..][i - 1] == s[i];
    }
  }

  /** Concatenating two strings drawn from a class gives one drawn from it. */
  lemma {:induction false} AllInAppend(a: string, b: string, k: CharClass)
    requires AllIn(a, k) && AllIn(b, k)
    ensures AllIn(a + b, k)
    decreases |a|
  {
    if |a| > 0 {
      AllInAppend(a[1..], b, k);
      assert (a + b)[1..] == a[1..] + b;
    } else {
      assert a + b == b;
    }
  }

  /** The label class is contained in the tail class. */
  lemma {:induction false} LabelIsTail(s: string)
    requires AllIn(s, LabelChar)
    ensures AllIn(s, TailChar)
    decreases |s|
  {
    if |s| > 0 {
      LabelIsTail(s[1..]);
    }
  }

  /** Lower-casing keeps every character in its class. */
  lemma LowerKeepsClass(s: string, k: CharClass)
    requires AllIn(s, k)
    ensures AllIn(Lower(s), k)
  {
    AllInIff(s, k);
    AllInIff(Lower(s), k);
  }

  /** A character outside the class does not occur in a string drawn from it. */
  lemma AllInExcludes(s: string, k: CharClass, c: char)
    requires AllIn(s, k) && !InClass(c, k)
    ensures c !in s
  {
    AllInIff(s, k);
  }

  /** The pattern body matches the whole of `s`: local part, '@', label, '.', tail. */
  ghost predicate BodyMatches(s: string) {
    exists i, j :: 0 < i && i + 1 < j && j + 1 < |s| && s[i] == '@' && s[j] == '.'
      && AllIn(s[..i], LocalChar) && AllIn(s[i + 1..j], LabelChar) && AllIn(s[j + 1..], TailChar)
  }

  /** Exhibits the '@' at `i` and the '.' at `j` as a match of the pattern body. */
  lemma BodyMatchesAt(s: string, i: nat, j: nat)
    requires 0 < i && i + 1 < j && j + 1 < |s| && s[i] == '@' && s[j] == '.'
    requires AllIn(s[..i], LocalChar) && AllIn(s[i + 1..j], LabelChar) && AllIn(s[j + 1..], TailChar)
    ensures BodyMatches(s)
  {
  }

  /**
   `re.match` succeeds: the body matches a prefix of `s` that ends where `$`
   may match, i.e. at the end of `s` or just before a final "\n".
   */
  ghost predicate Matches(s: string) {
    || BodyMatches(s)
    || (|s| > 0 && s[|s| - 1] == '\n' && BodyMatches(s[..|s| - 1]))
  }

  /** The trailing-newline rule of `$`: a text the body matches is accepted with one "\n" appended. */
  lemma NewlineAccepted(s: string)
    requires BodyMatches(s)
    ensures Matches(s + "\n")
  {
    assert (s + "\n")[..|s + "\n"| - 1] == s;
  }

  /** Any local part `user`, label `host` and tail drawn from their classes assemble into an accepted address, with or without a final newline. */
  lemma Assemble(user: string, host: string, tail: string)
    requires |user| > 0 && |host| > 0 && |tail| > 0
    requires AllIn(user, LocalChar) && AllIn(host, LabelChar) && AllIn(tail, TailChar)
    ensures BodyMatches(user + "@" + host + "." + tail)
    ensures Matches(user + "@" + host + "." + tail)
    ensures Matches(user + "@" + host + "." + tail + "\n")
  {
    var s := user + "@" + host + "." + tail;
    var i, j := |user|, |user| + 1 + |host|;
    assert s[..i] == user && s[i + 1..j] == host && s[j + 1..] == tail;
    BodyMatchesAt(s, i, j);
    NewlineAccepted(s);
  }

  /** Label, '.', tail: the part after the '@', checked at its first '.'. */
  predicate HostOk(h: string) {
    match IndexOf(h, '.')
    case None => false
    case Some(j) => 0 < j && j + 1 < |h| && AllIn(h[..j], LabelChar) && AllIn(h[j + 1..], TailChar)
  }

  /** Local part, '@', host: checked at the first '@'. */
  predicate BodyOk(s: string) {
    match IndexOf(s, '@')
    case None => false
    case Some(i) => 0 < i && AllIn(s[..i], LocalChar) && HostOk(s[i + 1..])
  }

  /** A label, a '.' at `j` and a tail make an accepted host: the label holds no '.', so `j` is the first one. */
  lemma HostOkAt(h: string, j: nat)
    requires 0 < j && j + 1 < |h| && h[j] == '.'
    requires AllIn(h[..j], LabelChar) && AllIn(h[j + 1..], TailChar)
    ensures HostOk(h)
  {
    AllInExcludes(h[..j], LabelChar, '.');
    IndexOfIsFirst(h, '.', j);
  }

  /** `HostOkAt` for the host that starts at offset `a` of `s`, with its '.' `n` characters further on. */
  lemma HostOkIn(s: string, a: nat, n: nat)
    requires 0 < n && a + n + 1 < |s| && s[a + n] == '.'
    requires AllIn(s[a..a + n], LabelChar) && AllIn(s[a + n + 1..], TailChar)
    ensures HostOk(s[a..])
  {
    PrefixOfSuffix(s, a, n);
    SuffixOfSuffix(s, a, n + 1);
    HostOkAt(s[a..], n);
  }

  /** The first '.' of an accepted host, with the label before it and the tail after it. */
  lemma HostDot(h: string) returns (j: nat)
    requires HostOk(h)
    ensures 0 < j && j + 1 < |h| && h[j] == '.'
    ensures AllIn(h[..j], LabelChar) && AllIn(h[j + 1..], TailChar)
  {
    j := IndexOf(h, '.').value;
  }

  /** The first '@' of a text the first-occurrence check accepts, with the local part before it. */
  lemma BodyAtFirst(s: string) returns (i: nat)
    requires BodyOk(s)
    ensures 0 < i < |s| && s[i] == '@'
    ensures AllIn(s[..i], LocalChar) && HostOk(s[i + 1..])
  {
    i := IndexOf(s, '@').value;
  }

  /** `HostDot` for the host that starts at offset `a` of `s`: the position of its first '.' in `s`. */
  lemma HostParts(s: string, a: nat) returns (k: nat)
    requires a <= |s| && HostOk(s[a..])
    ensures a < k && k + 1 < |s| && s[k] == '.'
    ensures AllIn(s[a..k], LabelChar) && AllIn(s[k + 1..], TailChar)
  {
    var j := HostDot(s[a..]);
    k := a + j;
    PrefixOfSuffix(s, a, j);
    SuffixOfSuffix(s, a, j + 1);
  }

  /** What the first-occurrence check accepts, the pattern body accepts. */
  lemma BodyOkSound(s: string)
    requires BodyOk(s)
    ensures BodyMatches(s)
  {
    var i := BodyAtFirst(s);
    var k := HostParts(s, i + 1);
    BodyMatchesAt(s, i, k);
  }

  /** What the pattern body accepts, the first-occurrence check accepts. */
  lemma BodyOkComplete(s: string)
    requires BodyMatches(s)
    ensures BodyOk(s)
  {
    var i, j := BodyParts(s);
    HostOkIn(s, i + 1, j - (i + 1));
    BodyOkAt(s, i);
  }

  /** A local part, the first '@' at `i` and an accepted host make a text the first-occurrence check accepts. */
  lemma BodyOkAt(s: string, i: nat)
    requires 0 < i < |s| && s[i] == '@'
    requires AllIn(s[..i], LocalChar) && HostOk(s[i + 1..])
    ensures BodyOk(s)
  {
    AllInExcludes(s[..i], LocalChar, '@');
    IndexOfIsFirst(s, '@', i);
  }

  /** The first-occurrence check accepts exactly what the pattern body accepts. */
  lemma BodyOkIff(s: string)
    ensures BodyOk(s) <==> BodyMatches(s)
  {
    if BodyOk(s) {
      BodyOkSound(s);
    }
    if BodyMatches(s) {
      BodyOkComplete(s);
    }
  }

  /** The positions of the '@' and of the first '.' after it where the pattern body matches. */
  lemma BodyParts(s: string) returns (i: nat, j: nat)
    requires BodyMatches(s)
    ensures 0 < i && i + 1 < j && j + 1 < |s| && s[i] == '@' && s[j] == '.'
    ensures AllIn(s[..i], LocalChar) && AllIn(s[i + 1..j], LabelChar) && AllIn(s[j + 1..], TailChar)
  {
    i, j :| 0 < i && i + 1 < j && j + 1 < |s| && s[i] == '@' && s[j] == '.'
      && AllIn(s[..i], LocalChar) && AllIn(s[i + 1..j], LabelChar) && AllIn(s[j + 1..], TailChar);
  }

  /** Where the pattern body matches, its '@' is the only one. */
  lemma BodyAt(s: string) returns (i: nat)
    requires BodyMatches(s)
    ensures 0 < i < |s| && s[i] == '@'
    ensures AllIn(s[..i], LocalChar)
    ensures '@' !in s[..i] && '@' !in s[i + 1..]
  {
    var j;
    i, j := BodyParts(s);
    AllInExcludes(s[..i], LocalChar, '@');
    AllInExcludes(s[i + 1..j], LabelChar, '@');
    AllInExcludes(s[j + 1..], TailChar, '@');
    assert s[i + 1..] == s[i + 1..j] + [s[j]] + s[j + 1..];
  }

  /**
   An accepted address has a non-empty local part before its '@', and no
   other '@': no class of the pattern admits one.
   */
  lemma AtPosition(email: string) returns (i: nat)
    requires Matches(email)
    ensures 0 < i < |email| && email[i] == '@'
    ensures AllIn(email[..i], LocalChar)
    ensures '@' !in email[..i] && '@' !in email[i + 1..]
    ensures multiset(email)['@'] == 1
  {
    if BodyMatches(email) {
      i := BodyAt(email);
    } else {
      var s := email[..|email| - 1];
      i := BodyAt(s);
      assert s[..i] == email[..i];
      assert email[i + 1..] == s[i + 1..] + ['\n'];
    }
    OccursOnce(email, '@', i);
  }

  /** The positions of the '@' and of the first '.' after it in an accepted address. */
  lemma Parts(email: string) returns (i: nat, j: nat)
    requires Matches(email)
    ensures 0 < i && i + 1 < j && j + 1 < |email| && email[i] == '@' && email[j] == '.'
    ensures AllIn(email[..i], LocalChar) && AllIn(email[i + 1..j], LabelChar)
    ensures || AllIn(email[j + 1..], TailChar)
            || (email[|email| - 1] == '\n' && AllIn(email[j + 1..|email| - 1], TailChar))
  {
    if BodyMatches(email) {
      i, j := BodyParts(email);
    } else {
      var s := email[..|email| - 1];
      i, j := BodyParts(s);
      assert s[..i] == email[..i];
      assert s[i + 1..j] == email[i + 1..j];
      assert s[j + 1..] == email[j + 1..|email| - 1];
    }
  }

  /** The text after the '@' of an accepted address, with the offset of its first '.'. */
  lemma HostOf(email: string) returns (i: nat, n: nat)
    requires Matches(email)
    ensures i < |email| && email[i] == '@'
    ensures 0 < n && n + 1 < |email[i + 1..]| && email[i + 1..][n] == '.'
    ensures AllIn(email[i + 1..][..n], LabelChar)
  {
    var j;
    i, j := Parts(email);
    n := j - (i + 1);
    assert email[i + 1..][..n] == email[i + 1..j];
  }

  /** Without an '@', or without a '.' somewhere after the '@', the address is rejected. */
  lemma NeedsAtThenDot(email: string)
    ensures '@' !in email ==> !Matches(email)
    ensures forall i :: 0 <= i < |email| && email[i] == '@' && '.' !in email[i + 1..] ==> !Matches(email)
  {
    if Matches(email) {
      var i, j := Parts(email);
      var k := AtPosition(email);
      assert email[i + 1..][j - i - 1] == '.';
      forall i' | 0 <= i' < |email| && email[i'] == '@'
        ensures '.' in email[i' + 1..]
      {
        assert i' == i;
      }
    }
  }

  lemma OneAtWhenMatches(email: string)
    ensures Matches(email) ==> multiset(email)['@'] == 1
  {
    if Matches(email) {
      var _ := AtPosition(email);
    }
  }

  /**
   The syntax gate of the pipeline: the body check on the whole text, or on
   the text without a final "\n". It accepts exactly what the pattern does.
   */
  function CheckSyntax(email: string): (ok: bool)
    ensures ok <==> Matches(email)
    ensures ok ==> multiset(email)['@'] == 1
  {
    BodyOkIff(email);
    OneAtWhenMatches(email);
    if |email| > 0 && email[|email| - 1] == '\n' then
      BodyOkIff(email[..|email| - 1]);
      BodyOk(email) || BodyOk(email[..|email| - 1])
    else
      BodyOk(email)
  }
}
