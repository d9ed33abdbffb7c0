/** C strings: what stands before the first NUL. */
module CStrings {
  const NUL := '\0'

  /** The C string that starts here. */
  function CString(s: seq<char>): string {
    if s == [] || s[0] == NUL then "" else [s[0]] + CString(s[1..])
  }

  lemma {:induction false} CStringConcat(a: seq<char>, b: seq<char>)
    requires NUL !in a
    ensures CString(a + b) == a + CString(b)
  {
    if a == [] {
      assert a + b == b;
    } else {
      assert (a + b)[1..] == a[1..] + b;
      CStringConcat(a[1..], b);
      assert a == [a[0]] + a[1..];
    }
  }

  /** A string is kept by keeping its characters and its end. */
  lemma {:induction false} CStringKept(u: seq<char>, v: seq<char>, k: nat)
    requires k < |u| && k < |v| && u[..k + 1] == v[..k + 1]
    requires |CString(u)| <= k && NUL in u
    ensures CString(v) == CString(u)
  {
    assert u[0] == u[..k + 1][0] && v[0] == v[..k + 1][0];
    if u[0] != NUL {
      assert u[1..][..k] == u[..k + 1][1..] && v[1..][..k] == v[..k + 1][1..];
      CStringKept(u[1..], v[1..], k - 1);
    }
  }

  /** A token that was done stays the string it was when nothing but what follows changes. */
  lemma TokenKept(before: seq<char>, after: seq<char>, done: nat, token: nat)
    requires |after| == |before| > 0 && before[|before| - 1] == NUL && done <= |before|
    requires forall i | 0 <= i < done :: after[i] == before[i]
    requires token < |before| && token + |CString(before[token..])| < done
    ensures CString(after[token..]) == CString(before[token..])
  {
    var u, v, k := before[token..], after[token..], |CString(before[token..])|;
    assert u[|u| - 1] == NUL;
    assert u[..k + 1] == before[token..token + k + 1] == after[token..token + k + 1] == v[..k + 1];
    CStringKept(u, v, k);
  }

  lemma TokensKept(before: seq<char>, after: seq<char>, done: nat, tokens: seq<nat>, texts: seq<string>)
    requires |after| == |before| > 0 && before[|before| - 1] == NUL && done <= |before| && |tokens| == |texts|
    requires forall i | 0 <= i < done :: after[i] == before[i]
    requires forall j | 0 <= j < |tokens| ::
               tokens[j] < |before| && tokens[j] + |texts[j]| < done && CString(before[tokens[j]..]) == texts[j]
    ensures forall j | 0 <= j < |tokens| :: CString(after[tokens[j]..]) == texts[j]
  {
    forall j | 0 <= j < |tokens| ensures CString(after[tokens[j]..]) == texts[j] {
      TokenKept(before, after, done, tokens[j]);
    }
  }
}
