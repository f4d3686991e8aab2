/**
 Output processing of the line discipline: what a text becomes, and how much of it fits.
 */
module TtyOutput {
  import opened TtyModel

  function ExpandAll(t: Termios, text: string): string {
    if text == [] then [] else ExpandAll(t, text[..|text| - 1]) + Expand(t, text[|text| - 1])
  }

  lemma ExpandMore(t: Termios, text: string, k: nat)
    requires k < |text|
    ensures ExpandAll(t, text[..k + 1]) == ExpandAll(t, text[..k]) + Expand(t, text[k])
  {
    assert text[..k + 1][..k] == text[..k];
  }

  lemma {:induction false} ExpandGrows(t: Termios, text: string, k: nat, m: nat)
    requires k <= m <= |text|
    ensures |ExpandAll(t, text[..k])| + m - k <= |ExpandAll(t, text[..m])|
  {
    if k < m {
      ExpandGrows(t, text, k, m - 1);
      ExpandMore(t, text, m - 1);
    }
  }

  /** The length of the longest prefix that fits. */
  function FitLength(t: Termios, space: nat, text: string): (n: nat)
    ensures n <= |text|
  {
    if |ExpandAll(t, text)| <= space then |text| else FitLength(t, space, text[..|text| - 1])
  }

  lemma {:induction false} FitEnds(t: Termios, space: nat, text: string, n: nat, m: nat)
    requires n <= m <= |text| && |ExpandAll(t, text[..n])| <= space
    requires n < |text| ==> |ExpandAll(t, text[..n])| + |Expand(t, text[n])| > space
    ensures FitLength(t, space, text[..m]) == n
  {
    if n < m {
      ExpandMore(t, text, n);
      ExpandGrows(t, text, n + 1, m);
      assert text[..m][..m - 1] == text[..m - 1];
      FitEnds(t, space, text, n, m - 1);
    }
  }

  lemma {:induction false} FitBounds(t: Termios, space: nat, text: string, m: nat)
    requires m <= |text|
    ensures var n := FitLength(t, space, text);
            |ExpandAll(t, text[..n])| <= space && (n < m ==> |ExpandAll(t, text[..m])| > space)
  {
    var k := |text| - 1;
    if |ExpandAll(t, text)| <= space {
      assert text[..|text|] == text;
    } else if m == |text| {
      assert text[..m] == text;
      FitBounds(t, space, text[..k], k);
      assert text[..k][..FitLength(t, space, text[..k])] == text[..FitLength(t, space, text[..k])];
    } else {
      FitBounds(t, space, text[..k], m);
      assert text[..k][..m] == text[..m];
      assert text[..k][..FitLength(t, space, text[..k])] == text[..FitLength(t, space, text[..k])];
    }
  }

  /** A prefix fits after expansion exactly when it is no longer than that. */
  lemma FitIsLongest(t: Termios, space: nat, text: string, m: nat)
    requires m <= |text|
    ensures |ExpandAll(t, text[..m])| <= space <==> m <= FitLength(t, space, text)
  {
    var n := FitLength(t, space, text);
    FitBounds(t, space, text, m);
    if m <= n { ExpandGrows(t, text, m, n); }
  }

  lemma ExpandSnoc(t: Termios, text: string, c: char)
    ensures ExpandAll(t, text + [c]) == ExpandAll(t, text) + Expand(t, c)
  {
    ExpandMore(t, text + [c], |text|);
    assert (text + [c])[..|text|] == text && (text + [c])[..|text| + 1] == text + [c];
  }

  lemma Regroup(x: string, y: string, z: string)
    ensures x + y + z == x + (y + z)
  {
  }

  /** Texts are expanded part by part. */
  lemma {:induction false} ExpandJoin(t: Termios, text: string, more: string)
    ensures ExpandAll(t, text + more) == ExpandAll(t, text) + ExpandAll(t, more)
  {
    if more == "" {
      assert text + more == text;
    } else {
      var n := |more| - 1;
      var front, c := more[..n], more[n];
      assert more == front + [c];
      ExpandJoin(t, text, front);
      ExpandSnoc(t, text + front, c);
      ExpandSnoc(t, front, c);
      Regroup(text, front, [c]);
      Regroup(ExpandAll(t, text), ExpandAll(t, front), Expand(t, c));
    }
  }

  /** An NL is expanded to CR NL under OPOST with ONLCR, a CR to NL under OPOST with OCRNL. */
  lemma ExpandedLines(t: Termios)
    ensures ExpandAll(t, "\n") == if t.opost && t.onlcr then "\r\n" else "\n"
    ensures ExpandAll(t, "\r") == if t.opost && t.ocrnl then "\n" else "\r"
  {
    assert "\n"[..0] == "" && "\r"[..0] == "";
    assert ExpandAll(t, "") == "";
  }

  /** Nothing else is touched. */
  lemma {:induction false} ExpandedSame(t: Termios, text: string)
    requires '\n' !in text && '\r' !in text
    ensures ExpandAll(t, text) == text
  {
    if text != [] { ExpandedSame(t, text[..|text| - 1]); }
  }

  lemma {:induction false} ExpandPlain(t: Termios, text: string)
    requires !t.opost
    ensures ExpandAll(t, text) == text
  {
    if text != [] { ExpandPlain(t, text[..|text| - 1]); }
  }
}
