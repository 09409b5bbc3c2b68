/** Bytes, C strings and the CRLF terminator, shared by the command reader
    and the bridge. */
module Base {

  /** An unsigned byte as read from a socket or pipe. */
  newtype byte = x: int | 0 <= x < 0x100

  const Nul: byte := 0
  const CR: byte := 13
  const LF: byte := 10

  datatype Option<T> = None | Some(value: T)

  /** The C string held in `s`: every byte before the first NUL, or all of
      `s` when it holds no NUL. This is what `strstr`, `strcmp` and `execve`
      see of a `char` buffer. */
  function CStr(s: seq<byte>): (c: seq<byte>)
    ensures c <= s
    ensures Nul !in c
    ensures |c| < |s| ==> s[|c|] == Nul
  {
    if s == [] || s[0] == Nul then [] else [s[0]] + CStr(s[1..])
  }

  /** The three facts in CStr's contract determine the C string. */
  lemma CStrUnique(s: seq<byte>, c: seq<byte>)
    requires c <= s && Nul !in c
    requires |c| < |s| ==> s[|c|] == Nul
    ensures CStr(s) == c
  {
    assert |CStr(s)| == |c|;
  }

  /** The C string of a concatenation: a NUL in the first part ends it there. */
  lemma CStrAppend(s: seq<byte>, t: seq<byte>)
    ensures CStr(s + t) == if Nul in s then CStr(s) else s + CStr(t)
  {
    if Nul in s {
      var c := CStr(s);
      assert |c| < |s|;
      assert c <= s + t;
      CStrUnique(s + t, c);
    } else {
      var c := s + CStr(t);
      assert c <= s + t;
      CStrUnique(s + t, c);
    }
  }

  /** Zero padding after a string does not change its C string. */
  lemma CStrPadded(s: seq<byte>, n: nat)
    requires n >= 1
    ensures CStr(s + Zeros(n)) == CStr(s)
  {
    CStrAppend(s, Zeros(n));
    if Nul !in s {
      assert CStr(Zeros(n)) == [];
      CStrAppend(s, []);
      assert s + [] == s;
    }
  }

  /** A CR LF pair starts at index `i` of `s`. */
  predicate CrlfAt(s: seq<byte>, i: int)
  {
    0 <= i && i + 1 < |s| && s[i] == CR && s[i + 1] == LF
  }

  /** Where `strstr(s, "\r\n")` finds its match in the string `s`: the first
      index at which a CR LF pair starts. */
  function FirstCrlf(s: seq<byte>): (r: Option<nat>)
    ensures r.Some? ==> CrlfAt(s, r.value) && forall j :: 0 <= j < r.value ==> !CrlfAt(s, j)
    ensures r.None? ==> forall j :: !CrlfAt(s, j)
  {
    if |s| < 2 then None
    else if s[0] == CR && s[1] == LF then Some(0)
    else
      assert forall j {:trigger CrlfAt(s, j)} :: 1 <= j ==> (CrlfAt(s, j) <==> CrlfAt(s[1..], j - 1));
      assert !CrlfAt(s, 0);
      match FirstCrlf(s[1..])
      case None => None
      case Some(k) => Some(k + 1)
  }

  /** A CR LF pair found in a string is still the first one after more bytes
      are appended. */
  lemma FirstCrlfExtend(a: seq<byte>, b: seq<byte>)
    requires FirstCrlf(a).Some?
    ensures FirstCrlf(a + b) == FirstCrlf(a)
  {
    var e := FirstCrlf(a).value;
    assert CrlfAt(a + b, e);
    forall j | 0 <= j < e ensures !CrlfAt(a + b, j) {
      assert !CrlfAt(a, j);
    }
  }

  /** Appending one byte to a string without a CR LF pair creates one only
      when the byte is LF right after a final CR. */
  lemma FirstCrlfSnoc(a: seq<byte>, x: byte)
    requires FirstCrlf(a).None?
    ensures FirstCrlf(a + [x]) ==
      if |a| >= 1 && a[|a| - 1] == CR && x == LF then Some(|a| - 1) else None
  {
    var s := a + [x];
    forall j | 0 <= j < |a| - 1 ensures !CrlfAt(s, j) {
      assert !CrlfAt(a, j);
    }
    if |a| >= 1 && a[|a| - 1] == CR && x == LF {
      assert CrlfAt(s, |a| - 1);
    } else {
      assert !CrlfAt(s, |a| - 1);
      assert forall j :: !CrlfAt(s, j);
    }
  }

  /** `n` zero bytes, as left by `memset(buf, 0, n)`. */
  function Zeros(n: nat): (z: seq<byte>)
    ensures |z| == n && forall i :: 0 <= i < n ==> z[i] == Nul
  {
    seq(n, _ => Nul)
  }
}
