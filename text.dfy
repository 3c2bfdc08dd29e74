/**
  * The few string and list operations of the Python runtime that the
  * converter relies on: `" ".join(...)`, `filter(None, ...)` over a list of
  * strings, `str.strip()` and `list.reverse()`.
  *
  * `Strip` removes the space character only: no other whitespace character
  * occurs in the strings the converter builds.
  */
module Text {

  /** A phrase with at least one character and no space at either end. */
  predicate Trimmed(s: string) {
    |s| > 0 && s[0] != ' ' && s[|s| - 1] != ' '
  }

  /** `s.endswith(t)`. */
  predicate EndsWith(s: string, t: string) {
    |s| >= |t| && s[|s| - |t|..] == t
  }

  /** `s.startswith(t)`. */
  predicate StartsWith(s: string, t: string) {
    |s| >= |t| && s[..|t|] == t
  }

  /** A concatenation starts with its first part and ends with its second. */
  lemma ConcatEnds(a: string, b: string)
    ensures StartsWith(a + b, a) && EndsWith(a + b, b)
  {
    assert (a + b)[..|a|] == a;
    assert (a + b)[|a + b| - |b|..] == b;
  }

  /** Putting text in front keeps the end. */
  lemma PrependKeepsEnd(p: string, w: string, t: string)
    requires EndsWith(w, t)
    ensures EndsWith(p + w, t)
  {
    assert (p + w)[|p + w| - |t|..] == w[|w| - |t|..];
  }

  /** `" ".join(parts)`: the parts in order, one space between neighbours. */
  function JoinSpace(parts: seq<string>): (r: string)
    ensures |parts| == 0 ==> r == ""
    ensures |parts| > 0 ==> |r| >= |parts[0]| && r[..|parts[0]|] == parts[0]
    ensures |parts| > 1 ==> |r| > |parts[0]| && r[|parts[0]|] == ' '
  {
    if |parts| == 0 then ""
    else if |parts| == 1 then parts[0]
    else parts[0] + " " + JoinSpace(parts[1..])
  }

  /** `list(filter(None, parts))`: the non-empty strings of `parts`, in order. */
  function FilterEmpty(parts: seq<string>): (r: seq<string>)
    ensures forall p :: p in r ==> p != ""
    ensures forall p :: p in r <==> p in parts && p != ""
    ensures |r| <= |parts|
  {
    if |parts| == 0 then []
    else if parts[0] == "" then FilterEmpty(parts[1..])
    else [parts[0]] + FilterEmpty(parts[1..])
  }

  /** `f` applied to each element of `s`, in order. */
  function Map<A, B>(f: A -> B, s: seq<A>): (r: seq<B>)
    ensures |r| == |s|
    ensures forall k :: 0 <= k < |s| ==> r[k] == f(s[k])
  {
    if |s| == 0 then [] else [f(s[0])] + Map(f, s[1..])
  }

  /** Mapping a concatenation maps each part. */
  lemma {:induction false} MapAppend<A, B>(f: A -> B, a: seq<A>, b: seq<A>)
    ensures Map(f, a + b) == Map(f, a) + Map(f, b)
  {
    if |a| > 0 {
      var t := a[1..];
      assert (a + b)[0] == a[0] && (a + b)[1..] == t + b;
      MapAppend(f, t, b);
      var x := [f(a[0])];
      assert Map(f, a + b) == x + (Map(f, t) + Map(f, b));
      assert x + (Map(f, t) + Map(f, b)) == (x + Map(f, t)) + Map(f, b);
    } else {
      assert a + b == b;
    }
  }

  /** `s.lstrip(" ")`: drops the leading spaces and nothing else. */
  function TrimStart(s: string): (r: string)
    ensures |r| <= |s| && r == s[|s| - |r|..]
    ensures r == "" || r[0] != ' '
    ensures forall k :: 0 <= k < |s| - |r| ==> s[k] == ' '
  {
    if |s| > 0 && s[0] == ' ' then TrimStart(s[1..]) else s
  }

  /** `s.rstrip(" ")`: drops the trailing spaces and nothing else. */
  function TrimEnd(s: string): (r: string)
    ensures |r| <= |s| && r == s[..|r|]
    ensures r == "" || r[|r| - 1] != ' '
    ensures forall k :: |r| <= k < |s| ==> s[k] == ' '
  {
    if |s| > 0 && s[|s| - 1] == ' ' then TrimEnd(s[..|s| - 1]) else s
  }

  /** `s.strip(" ")`: a slice of `s` with only spaces cut off on either side. */
  function Strip(s: string): (r: string)
    ensures r == "" || Trimmed(r)
    ensures exists i, j ::
              && 0 <= i <= j <= |s| && r == s[i..j]
              && (forall k :: 0 <= k < i ==> s[k] == ' ')
              && (forall k :: j <= k < |s| ==> s[k] == ' ')
  {
    var t := TrimStart(s);
    var r := TrimEnd(t);
    var i := |s| - |t|;
    var j := i + |r|;
    assert r == s[i..j];
    assert forall k :: j <= k < |s| ==> s[k] == t[k - i];
    r
  }

  /** The list reversed, as `list.reverse()` leaves it. */
  function Reverse<T>(s: seq<T>): (r: seq<T>)
    ensures |r| == |s|
  {
    if |s| == 0 then [] else Reverse(s[1..]) + [s[0]]
  }

  /** Position k of the reversed list holds position |s| - 1 - k of the list. */
  lemma {:induction false} ReverseIndex<T>(s: seq<T>, k: nat)
    requires k < |s|
    ensures Reverse(s)[k] == s[|s| - 1 - k]
  {
    if k < |s| - 1 {
      ReverseIndex(s[1..], k);
    }
  }

  lemma {:induction false} ReverseAppend<T>(s: seq<T>, x: T)
    ensures Reverse(s + [x]) == [x] + Reverse(s)
  {
    if |s| > 0 {
      assert (s + [x])[1..] == s[1..] + [x];
      ReverseAppend(s[1..], x);
    }
  }

  lemma {:induction false} ReverseReverse<T>(s: seq<T>)
    ensures Reverse(Reverse(s)) == s
  {
    if |s| > 0 {
      ReverseReverse(s[1..]);
      ReverseAppend(Reverse(s[1..]), s[0]);
    }
  }

  /** A phrase that is already trimmed is left alone by `strip`. */
  lemma StripTrimmed(s: string)
    requires Trimmed(s)
    ensures Strip(s) == s
  {
  }

  /** `strip` removes exactly the one space appended to a trimmed phrase. */
  lemma StripTrailingSpace(s: string)
    requires Trimmed(s)
    ensures Strip(s + " ") == s
  {
    var t := s + " ";
    assert TrimStart(t) == t;
    assert t[..|t| - 1] == s;
  }

  /** Joining a non-empty list of trimmed phrases gives a trimmed phrase. */
  lemma {:induction false} JoinTrimmed(parts: seq<string>)
    requires |parts| > 0
    requires forall k :: 0 <= k < |parts| ==> Trimmed(parts[k])
    ensures Trimmed(JoinSpace(parts))
  {
    if |parts| > 1 {
      JoinTrimmed(parts[1..]);
      assert Trimmed(parts[0]);
    }
  }

  /** Appending one more part adds one space and the part. */
  lemma {:induction false} JoinSnoc(parts: seq<string>, x: string)
    ensures JoinSpace(parts + [x]) == if |parts| == 0 then x else JoinSpace(parts) + " " + x
  {
    if |parts| > 1 {
      var tail := parts[1..];
      assert (parts + [x])[0] == parts[0] && (parts + [x])[1..] == tail + [x];
      var head := parts[0] + " ";
      var joined := JoinSpace(tail);
      calc {
        JoinSpace(parts + [x]);
        head + JoinSpace(tail + [x]);
        { JoinSnoc(tail, x); }
        head + (joined + " " + x);
        (head + joined) + " " + x;
        JoinSpace(parts) + " " + x;
      }
    } else if |parts| == 1 {
      assert (parts + [x])[1..] == [x];
    }
  }

  /** Growing the last part by a space grows the joined text by a space. */
  lemma JoinLastSpace(parts: seq<string>, x: string)
    ensures JoinSpace(parts + [x + " "]) == JoinSpace(parts + [x]) + " "
  {
    JoinSnoc(parts, x + " ");
    JoinSnoc(parts, x);
  }

  /** `filter(None, ...)` keeps a list without empty strings as it is. */
  lemma {:induction false} FilterNoEmpty(parts: seq<string>)
    requires forall k :: 0 <= k < |parts| ==> parts[k] != ""
    ensures FilterEmpty(parts) == parts
  {
    if |parts| > 0 {
      FilterNoEmpty(parts[1..]);
    }
  }
}
