/**
 * The PHP language features and built-in functions that the table code relies on,
 * over strings taken as sequences of bytes (one `char` per byte, so `strlen(s)` is `|s|`).
 */
module Php {

  /** A nullable value, as PHP's `?string`. */
  datatype Option<T> = None | Some(value: T)

  /** A value, or the message of the exception thrown instead. */
  datatype Result<T> = Ok(value: T) | Failure(message: string)

  /** PHP's `empty()` on a nullable string: true for null, for "" and for "0". */
  predicate IsEmpty(s: Option<string>)
  {
    s.None? || s.value == "" || s.value == "0"
  }

  /**
   * The array union `$options + $defaults`: every key of either side is present,
   * and a key the left operand already has keeps its value.
   */
  function ArrayUnion<K, V>(options: map<K, V>, defaults: map<K, V>): (r: map<K, V>)
    ensures r.Keys == options.Keys + defaults.Keys
    ensures forall k :: k in options ==> r[k] == options[k]
    ensures forall k :: k in defaults && k !in options ==> r[k] == defaults[k]
  {
    defaults + options
  }

  /** `str_repeat(c, n)` for a one-character string `c`. */
  function StrRepeat(c: char, n: nat): (r: string)
    ensures |r| == n
    ensures forall i :: 0 <= i < n ==> r[i] == c
  {
    if n == 0 then "" else StrRepeat(c, n - 1) + [c]
  }

  /** `str_pad(s, width)`: pads on the right with spaces up to `width`, and never truncates. */
  function StrPad(s: string, width: nat): (r: string)
    ensures |r| == if |s| < width then width else |s|
    ensures r[..|s|] == s
    ensures forall i :: |s| <= i < |r| ==> r[i] == ' '
  {
    if width <= |s| then s else s + StrRepeat(' ', width - |s|)
  }

  /** The string that appending every part in turn with `.=` builds. */
  function Concat(parts: seq<string>): string
  {
    if parts == [] then "" else Concat(parts[..|parts| - 1]) + parts[|parts| - 1]
  }

  /** `implode(glue, parts)`: the parts in order, with the glue between neighbours. */
  function Implode(glue: string, parts: seq<string>): (r: string)
    ensures |parts| == 0 ==> r == ""
    ensures |parts| >= 1 ==> |parts[0]| <= |r| && r[..|parts[0]|] == parts[0]
    ensures |parts| >= 1 ==> |parts[|parts| - 1]| <= |r| && r[|r| - |parts[|parts| - 1]|..] == parts[|parts| - 1]
  {
    if |parts| == 0 then ""
    else if |parts| == 1 then parts[0]
    else Implode(glue, parts[..|parts| - 1]) + glue + parts[|parts| - 1]
  }

  /** No cell of a header or of a list of rows holds a line break. */
  predicate NoBreaks(header: seq<string>, rows: seq<seq<string>>)
  {
    && (forall j :: 0 <= j < |header| ==> '\n' !in header[j])
    && (forall i, j :: 0 <= i < |rows| && 0 <= j < |rows[i]| ==> '\n' !in rows[i][j])
  }

  /**
   * The pieces of `s` between the occurrences of `c`, as PHP's `explode` with a one-character
   * delimiter. The code never calls it; it serves to state how rendered text splits into lines.
   */
  function Explode(c: char, s: string): (r: seq<string>)
    ensures |r| >= 1
  {
    if s == [] then [""]
    else
      var rest := Explode(c, s[1..]);
      if s[0] == c then [""] + rest else [[s[0]] + rest[0]] + rest[1..]
  }

  /** A string that is one line: it ends with `c` and holds no other `c`. */
  predicate IsLine(c: char, line: string)
  {
    |line| > 0 && line[|line| - 1] == c && c !in line[..|line| - 1]
  }

  /** A line without its terminator. */
  function LineBody(line: string): string
  {
    if line == [] then "" else line[..|line| - 1]
  }

  /** Every line without its terminator. */
  function LineBodies(lines: seq<string>): (r: seq<string>)
    ensures |r| == |lines|
    ensures forall j :: 0 <= j < |lines| ==> r[j] == LineBody(lines[j])
  {
    seq(|lines|, j requires 0 <= j < |lines| => LineBody(lines[j]))
  }

  lemma {:induction false} ConcatAppend(a: seq<string>, b: seq<string>)
    ensures Concat(a + b) == Concat(a) + Concat(b)
    decreases |b|
  {
    if b == [] {
      assert a + b == a;
    } else {
      var b', last := b[..|b| - 1], b[|b| - 1];
      assert Concat(a + b) == Concat(a + b') + last by {
        assert (a + b)[..|a + b| - 1] == a + b';
      }
      ConcatAppend(a, b');
      AppendAssoc(Concat(a), Concat(b'), last);
    }
  }

  lemma {:induction false} ConcatLength(parts: seq<string>, widths: seq<nat>, extra: nat)
    requires |parts| == |widths|
    requires forall j :: 0 <= j < |parts| ==> |parts[j]| == widths[j] + extra
    ensures |Concat(parts)| == Sum(widths) + |parts| * extra
  {
    if parts != [] {
      var n := |parts|;
      var init, front := parts[..n - 1], widths[..n - 1];
      assert |Concat(init)| == Sum(front) + (n - 1) * extra by {
        ConcatLength(init, front, extra);
      }
      assert |Concat(parts)| == |Concat(init)| + |parts[n - 1]|;
      assert Sum(widths) == Sum(front) + widths[n - 1];
      MulStep(n, extra);
    }
  }

  /** One more part adds one more `extra`. */
  lemma MulStep(n: nat, extra: nat)
    requires n >= 1
    ensures n * extra == (n - 1) * extra + extra
  {
  }

  lemma {:induction false} ConcatExcludes(c: char, parts: seq<string>)
    requires forall j :: 0 <= j < |parts| ==> c !in parts[j]
    ensures c !in Concat(parts)
  {
    if parts != [] {
      ConcatExcludes(c, parts[..|parts| - 1]);
    }
  }

  /** The sum of a sequence of widths. */
  function Sum(widths: seq<nat>): nat
  {
    if widths == [] then 0 else Sum(widths[..|widths| - 1]) + widths[|widths| - 1]
  }

  lemma {:induction false} ImplodeExcludes(c: char, glue: string, parts: seq<string>)
    requires c !in glue
    requires forall j :: 0 <= j < |parts| ==> c !in parts[j]
    ensures c !in Implode(glue, parts)
  {
    if |parts| > 1 {
      ImplodeExcludes(c, glue, parts[..|parts| - 1]);
    }
  }

  lemma {:induction false} ExplodeWithout(c: char, s: string)
    requires c !in s
    ensures Explode(c, s) == [s]
  {
    if s != [] {
      ExplodeWithout(c, s[1..]);
      assert [s[0]] + s[1..] == s;
    }
  }

  /** Cutting at one occurrence of the delimiter splits the pieces there. */
  lemma {:induction false} ExplodeAround(c: char, a: string, b: string)
    ensures Explode(c, a + [c] + b) == Explode(c, a) + Explode(c, b)
  {
    if a == [] {
      assert a + [c] + b == [c] + b;
      assert ([c] + b)[1..] == b;
    } else {
      var s := a + [c] + b;
      var r, e := Explode(c, a[1..]), Explode(c, b);
      assert s[0] == a[0] && s != [];
      assert Explode(c, s[1..]) == r + e by {
        assert s[1..] == a[1..] + [c] + b;
        ExplodeAround(c, a[1..], b);
      }
      if a[0] == c {
        AppendAssoc([""], r, e);
      } else {
        var first := [a[0]] + r[0];
        assert (r + e)[0] == r[0] && (r + e)[1..] == r[1..] + e;
        AppendAssoc([first], r[1..], e);
      }
    }
  }

  /** `explode` undoes `implode` when no part holds the delimiter. */
  lemma {:induction false} ExplodeImplode(c: char, parts: seq<string>)
    requires |parts| >= 1
    requires forall j :: 0 <= j < |parts| ==> c !in parts[j]
    ensures Explode(c, Implode([c], parts)) == parts
  {
    if |parts| == 1 {
      ExplodeWithout(c, parts[0]);
    } else {
      var init := parts[..|parts| - 1];
      ExplodeImplode(c, init);
      ExplodeWithout(c, parts[|parts| - 1]);
      ExplodeAround(c, Implode([c], init), parts[|parts| - 1]);
      assert parts == init + [parts[|parts| - 1]];
    }
  }

  /** A text made of whole lines splits into the lines' bodies and a final empty piece. */
  lemma {:induction false} ExplodeLines(c: char, lines: seq<string>)
    requires forall j :: 0 <= j < |lines| ==> IsLine(c, lines[j])
    ensures Explode(c, Concat(lines)) == LineBodies(lines) + [""]
  {
    if lines != [] {
      var first, rest := lines[0], lines[1..];
      var body := LineBody(first);
      assert Concat(lines) == body + [c] + Concat(rest) by {
        ConcatFirst(lines);
        assert first == body + [c];
      }
      assert Explode(c, Concat(lines)) == [body] + (LineBodies(rest) + [""]) by {
        ExplodeLines(c, rest);
        ExplodeWithout(c, body);
        ExplodeAround(c, body, Concat(rest));
      }
      LineBodiesFirst(lines);
      AppendAssoc([body], LineBodies(rest), [""]);
    }
  }

  /** The concatenation starts with the first part. */
  lemma ConcatFirst(parts: seq<string>)
    requires parts != []
    ensures Concat(parts) == parts[0] + Concat(parts[1..])
  {
    assert parts == [parts[0]] + parts[1..];
    ConcatAppend([parts[0]], parts[1..]);
    assert [parts[0]][..0] == [];
  }

  /** The bodies of the lines start with the body of the first line. */
  lemma LineBodiesFirst(lines: seq<string>)
    requires lines != []
    ensures LineBodies(lines) == [LineBody(lines[0])] + LineBodies(lines[1..])
  {
  }

  /** `s` ends with `suffix`. */
  predicate EndsWith(s: string, suffix: string)
  {
    |suffix| <= |s| && s[|s| - |suffix|..] == suffix
  }

  /** Every part has length `width`, so the concatenation is `|parts| * width` long. */
  lemma {:induction false} ConcatUniformLength(parts: seq<string>, width: nat)
    requires forall j :: 0 <= j < |parts| ==> |parts[j]| == width
    ensures |Concat(parts)| == |parts| * width
  {
    if parts != [] {
      var n := |parts|;
      ConcatUniformLength(parts[..n - 1], width);
      assert n * width == (n - 1) * width + width;
    }
  }

  /** Extending the prefix by one part appends that part. */
  lemma ConcatPrefixStep(parts: seq<string>, k: nat)
    requires k < |parts|
    ensures Concat(parts[..k + 1]) == Concat(parts[..k]) + parts[k]
  {
    assert parts[..k + 1][..k] == parts[..k];
  }

  /** Two parts concatenate to their sum. */
  lemma ConcatPair(a: string, b: string)
    ensures Concat([a, b]) == a + b
  {
    assert [a, b][..1] == [a];
    assert [a][..0] == [];
    assert Concat([a]) == Concat([]) + a;
    assert Concat([a]) == a;
  }

  /** Part `k` sits in the concatenation right after the parts before it. */
  lemma {:induction false} ConcatPartAt(parts: seq<string>, k: nat)
    requires k < |parts|
    ensures var start := |Concat(parts[..k])|;
            && start + |parts[k]| <= |Concat(parts)|
            && Concat(parts)[start..start + |parts[k]|] == parts[k]
            && Concat(parts[..k + 1]) == Concat(parts[..k]) + parts[k]
  {
    var before, after := parts[..k + 1], parts[k + 1..];
    assert parts == before + after;
    ConcatAppend(before, after);
    assert before[..k] == parts[..k];
    assert Concat(before) == Concat(parts[..k]) + parts[k];
  }

  /** Sequence concatenation is associative. */
  lemma AppendAssoc<T>(a: seq<T>, b: seq<T>, c: seq<T>)
    ensures (a + b) + c == a + (b + c)
  {
  }

  /** A slice inside the left operand of a concatenation. */
  lemma SliceOfAppend(x: string, y: string, i: nat, j: nat)
    requires i <= j <= |x|
    ensures (x + y)[i..j] == x[i..j]
  {
  }

  /** The last `n` characters of a concatenation come from its right operand. */
  lemma SuffixOfAppend(x: string, y: string, n: nat)
    requires n <= |y|
    ensures (x + y)[|x + y| - n..] == y[|y| - n..]
  {
  }

  /** A slice of a slice is a slice. */
  lemma SliceOfSlice(s: string, a: nat, b: nat, i: nat, j: nat)
    requires a <= b <= |s| && i <= j <= b - a
    ensures s[a..b][i..j] == s[a + i..a + j]
  {
    assert forall t :: 0 <= t < j - i ==> s[a..b][i..j][t] == s[a + i + t];
  }
}
