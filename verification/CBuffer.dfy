// NUL-terminated text inside fixed-size buffers, and the string.h calls used on it.
module CBuffer {
  ghost predicate NulFree(s: string) {
    forall i | 0 <= i < |s| :: s[i] != '\0'
  }

  // The C string at a + p is s.
  ghost predicate Holds(a: array<char>, p: nat, s: string)
    reads a
  {
    && p + |s| < a.Length
    && a[p..p + |s|] == s
    && a[p + |s|] == '\0'
    && NulFree(s)
  }

  method Strlen(a: array<char>, p: nat, ghost s: string) returns (n: nat)
    requires Holds(a, p, s)
    ensures n == |s|
  {
    assert forall j | 0 <= j < |s| :: a[p + j] == s[j];
    n := 0;
    while a[p + n] != '\0'
      invariant n <= |s|
      invariant n < |s| ==> a[p + n] == s[n]
      decreases |s| - n
    {
      n := n + 1;
    }
  }

  // strcpy(dst, src)
  method Strcpy(dst: array<char>, src: string)
    requires NulFree(src) && |src| < dst.Length
    modifies dst
    ensures Holds(dst, 0, src)
  {
    for i := 0 to |src|
      invariant dst[..i] == src[..i]
    {
      dst[i] := src[i];
    }
    dst[|src|] := '\0';
  }

  // strcat(dst, src)
  method Strcat(dst: array<char>, src: string, ghost s: string)
    requires Holds(dst, 0, s) && NulFree(src) && |s| + |src| < dst.Length
    modifies dst
    ensures Holds(dst, 0, s + src)
  {
    var n := Strlen(dst, 0, s);
    for i := 0 to |src|
      invariant dst[..n + i] == s + src[..i]
    {
      dst[n + i] := src[i];
    }
    dst[n + |src|] := '\0';
    assert dst[..n + |src|] == s + src;
  }

  // A fresh copy of the text: malloc, strcpy
  method Duplicate(s: string) returns (r: array<char>)
    requires NulFree(s)
    ensures fresh(r) && Holds(r, 0, s)
  {
    r := new char[|s| + 1];
    Strcpy(r, s);
  }

  // The text itself, as the read-only consumers (atoi, strtoul, strcmp) see it.
  method TextAt(a: array<char>, p: nat, ghost s: string) returns (t: string)
    requires Holds(a, p, s)
    ensures t == s
  {
    var n := Strlen(a, p, s);
    t := a[p..p + n];
  }
}
