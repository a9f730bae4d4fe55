/** Character and string helpers shared by every extractor: Python's notion of
    whitespace, `str.strip`, `str.join` and flattening of nested sequences. */
module Text {

  datatype Option<T> = None | Some(value: T)

  /** Python's `str.isspace()`; a `\s` in a `str` regular expression matches the
      same characters. */
  predicate IsWs(c: char)
  {
    || ('\U{09}' <= c <= '\U{0D}')
    || ('\U{1C}' <= c <= '\U{1F}')
    || c == ' '
    || c == '\U{85}'
    || c == '\U{A0}'
    || c == '\U{1680}'
    || ('\U{2000}' <= c <= '\U{200A}')
    || c == '\U{2028}'
    || c == '\U{2029}'
    || c == '\U{202F}'
    || c == '\U{205F}'
    || c == '\U{3000}'
  }

  predicate AllWs(s: string)
  {
    forall i :: 0 <= i < |s| ==> IsWs(s[i])
  }

  /** The non-whitespace characters of `s`, in order. */
  function NonWs(s: string): (r: string)
    ensures |r| <= |s|
    ensures forall i :: 0 <= i < |r| ==> !IsWs(r[i])
    ensures r == [] <==> AllWs(s)
  {
    if s == [] then []
    else if IsWs(s[0]) then
      assert AllWs(s) <==> AllWs(s[1..]) by {
        if AllWs(s[1..]) {
          forall i | 0 <= i < |s| ensures IsWs(s[i]) {
            if i > 0 { assert s[i] == s[1..][i - 1]; }
          }
        }
      }
      NonWs(s[1..])
    else [s[0]] + NonWs(s[1..])
  }

  lemma {:induction false} NonWsAppend(a: string, b: string)
    ensures NonWs(a + b) == NonWs(a) + NonWs(b)
    decreases |a|
  {
    if a == [] {
      assert a + b == b;
    } else {
      assert (a + b)[1..] == a[1..] + b;
      NonWsAppend(a[1..], b);
    }
  }

  /** `str.lstrip()`: drop the leading whitespace run. */
  function TrimLeft(s: string): (r: string)
    ensures |r| <= |s|
    ensures r == [] || !IsWs(r[0])
    ensures s != [] && IsWs(s[0]) ==> |r| < |s|
  {
    if s != [] && IsWs(s[0]) then TrimLeft(s[1..]) else s
  }

  /** `TrimLeft` removes a whitespace-only prefix and keeps the rest. */
  lemma {:induction false} TrimLeftSplit(s: string)
    ensures s == s[..|s| - |TrimLeft(s)|] + TrimLeft(s)
    ensures AllWs(s[..|s| - |TrimLeft(s)|])
    decreases |s|
  {
    if s != [] && IsWs(s[0]) {
      var r := TrimLeft(s[1..]);
      TrimLeftSplit(s[1..]);
      var k := |s| - |r|;
      assert s[1..][..k - 1] == s[1..k];
      assert s[k..] == r;
      forall i | 0 <= i < k
        ensures IsWs(s[..k][i])
      {
        if i > 0 {
          assert s[..k][i] == s[1..k][i - 1];
        }
      }
    }
  }

  /** A whitespace-trimmed text keeps the last character of the original. */
  lemma TrimLeftLast(s: string)
    requires TrimLeft(s) != []
    ensures TrimLeft(s)[|TrimLeft(s)| - 1] == s[|s| - 1]
  {
    TrimLeftSplit(s);
  }

  /** `str.rstrip()`: drop the trailing whitespace run. */
  function TrimRight(s: string): (r: string)
    ensures |r| <= |s|
    ensures r == [] || !IsWs(r[|r| - 1])
  {
    if s != [] && IsWs(s[|s| - 1]) then TrimRight(s[..|s| - 1]) else s
  }

  /** `TrimRight` keeps a prefix and removes a whitespace-only rest. */
  lemma {:induction false} TrimRightSplit(s: string)
    ensures s == TrimRight(s) + s[|TrimRight(s)|..]
    ensures AllWs(s[|TrimRight(s)|..])
    decreases |s|
  {
    if s != [] && IsWs(s[|s| - 1]) {
      var r := TrimRight(s[..|s| - 1]);
      TrimRightSplit(s[..|s| - 1]);
      assert s[|r|..] == s[..|s| - 1][|r|..] + [s[|s| - 1]];
    }
  }

  /** `str.strip()`: what is left between the leading and the trailing
      whitespace runs. It keeps every non-whitespace character and leaves no
      whitespace at either end. */
  function Strip(s: string): (r: string)
    ensures |r| <= |s|
    ensures NonWs(r) == NonWs(s)
    ensures r == [] || (!IsWs(r[0]) && !IsWs(r[|r| - 1]))
  {
    TrimLeftKeepsNonWs(s);
    TrimRightKeepsNonWs(TrimLeft(s));
    TrimRightSplit(TrimLeft(s));
    TrimRight(TrimLeft(s))
  }

  lemma {:induction false} TrimLeftUnique(a: string, t: string)
    requires AllWs(a)
    requires t == [] || !IsWs(t[0])
    ensures TrimLeft(a + t) == t
    decreases |a|
  {
    if a == [] {
      assert a + t == t;
    } else {
      assert (a + t)[1..] == a[1..] + t;
      TrimLeftUnique(a[1..], t);
    }
  }

  lemma {:induction false} TrimRightUnique(t: string, b: string)
    requires AllWs(b)
    requires t == [] || !IsWs(t[|t| - 1])
    ensures TrimRight(t + b) == t
    decreases |b|
  {
    if b == [] {
      assert t + b == t;
    } else {
      assert (t + b)[..|t + b| - 1] == t + b[..|b| - 1];
      TrimRightUnique(t, b[..|b| - 1]);
    }
  }

  /** Whatever surrounds a whitespace-free-ended core with whitespace, `Strip`
      returns exactly that core: `Strip` is determined by its contract. */
  lemma StripUnique(a: string, m: string, b: string)
    requires AllWs(a) && AllWs(b)
    requires m == [] || (!IsWs(m[0]) && !IsWs(m[|m| - 1]))
    ensures Strip(a + m + b) == m
  {
    if m == [] {
      assert a + m + b == (a + b) + [];
      TrimLeftUnique(a + b, []);
    } else {
      assert a + m + b == a + (m + b);
      TrimLeftUnique(a, m + b);
      TrimRightUnique(m, b);
    }
  }

  lemma TrimLeftKeepsNonWs(s: string)
    ensures NonWs(TrimLeft(s)) == NonWs(s)
  {
    var t := TrimLeft(s);
    var a := s[..|s| - |t|];
    TrimLeftSplit(s);
    NonWsAppend(a, t);
  }

  lemma TrimRightKeepsNonWs(t: string)
    ensures NonWs(TrimRight(t)) == NonWs(t)
  {
    var r := TrimRight(t);
    var b := t[|r|..];
    TrimRightSplit(t);
    NonWsAppend(r, b);
    assert NonWs(b) == [];
  }

  /** A text is blank, in the sense of Python's `if not text.strip()`, exactly
      when every character of it is whitespace. */
  lemma StripEmptyIff(s: string)
    ensures Strip(s) == [] <==> AllWs(s)
  {
    var r := Strip(s);
    if AllWs(s) {
      assert NonWs(r) == [];
      assert AllWs(r);
    }
  }

  /** `sep.join(xs)`. */
  function Join(sep: string, xs: seq<string>): string
  {
    if xs == [] then []
    else if |xs| == 1 then xs[0]
    else xs[0] + sep + Join(sep, xs[1..])
  }

  /** Concatenation of a sequence of sequences, in order. */
  function Flatten<T>(xss: seq<seq<T>>): seq<T>
  {
    if xss == [] then [] else xss[0] + Flatten(xss[1..])
  }

  lemma {:induction false} FlattenAppend<T>(a: seq<seq<T>>, b: seq<seq<T>>)
    ensures Flatten(a + b) == Flatten(a) + Flatten(b)
    decreases |a|
  {
    if a == [] {
      assert a + b == b;
    } else {
      assert (a + b)[1..] == a[1..] + b;
      FlattenAppend(a[1..], b);
    }
  }

  lemma FlattenSnoc<T>(a: seq<seq<T>>, x: seq<T>)
    ensures Flatten(a + [x]) == Flatten(a) + x
  {
    FlattenAppend(a, [x]);
    assert Flatten([x]) == x + Flatten<T>([]);
  }
}
