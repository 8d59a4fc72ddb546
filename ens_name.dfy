/**
 * Syntactic validation of ENS names (`isENS`).
 *
 * The domain pattern is given twice: as the grammar it describes (labels split
 * at '.', every label but the last a valid piece, the last a valid top-level
 * suffix) and as a scanner, a finite-state machine fed one character at a time.
 * The two are proved to accept the same strings.
 */
module EnsName {
  import opened JsString

  predicate IsAlnum(c: char) {
    'a' <= c <= 'z' || '0' <= c <= '9'
  }

  predicate IsLabelChar(c: char) {
    IsAlnum(c) || c == '-'
  }

  /** Every character from `[a-z0-9-]`, and no '-' at the start. */
  predicate IsLabelPrefix(l: string) {
    (forall i :: 0 <= i < |l| ==> IsLabelChar(l[i])) && (|l| > 0 ==> IsAlnum(l[0]))
  }

  /** One piece of a domain, `[a-z0-9](?:[-a-z0-9]*[a-z0-9])?`: non-empty, no '-' at either end. */
  predicate IsLabel(l: string) {
    IsLabelPrefix(l) && |l| >= 1 && IsAlnum(l[|l| - 1])
  }

  /** The top-level suffix, `[a-z0-9][-a-z0-9]*[a-z0-9]`: a label of at least two characters. */
  predicate IsTld(l: string) {
    IsLabel(l) && |l| >= 2
  }

  function Last<T>(xs: seq<T>): T
    requires |xs| > 0
  {
    xs[|xs| - 1]
  }

  /** The parts joined back together with a '.' between neighbours. */
  function JoinDots(parts: seq<string>): string
    requires |parts| >= 1
  {
    if |parts| == 1 then parts[0] else JoinDots(parts[..|parts| - 1]) + "." + Last(parts)
  }

  /** The text between consecutive '.' characters, in order. */
  function Split(s: string): (parts: seq<string>)
    ensures |parts| >= 1
  {
    if s == "" then [""]
    else
      var p, c := Split(s[..|s| - 1]), s[|s| - 1];
      if c == '.' then p + [""] else p[..|p| - 1] + [Last(p) + [c]]
  }

  /** `Split` read one character at a time: a '.' opens a new part, anything else extends the last one. */
  lemma {:induction false} SplitSnoc(s: string, c: char)
    ensures var p := Split(s);
      Split(s + [c]) == if c == '.' then p + [""] else p[..|p| - 1] + [Last(p) + [c]]
  {
    assert (s + [c])[..|s|] == s;
  }

  /** `JoinDots` read one part at a time. */
  lemma {:induction false} JoinDotsSnoc(q: seq<string>, x: string)
    requires |q| >= 1
    ensures JoinDots(q + [x]) == JoinDots(q) + "." + x
  {
    assert (q + [x])[..|q|] == q;
  }

  /** No part of a split contains the separator. */
  lemma {:induction false} SplitPartsHaveNoDot(s: string)
    ensures forall i :: 0 <= i < |Split(s)| ==> '.' !in Split(s)[i]
  {
    if s != "" {
      var s', c := s[..|s| - 1], s[|s| - 1];
      assert s == s' + [c];
      SplitPartsHaveNoDot(s');
      SplitSnoc(s', c);
      var p := Split(s');
      if c != '.' {
        assert '.' !in Last(p) + [c];
      }
    }
  }

  /** Joining the parts of a split gives back the original text. */
  lemma {:induction false} JoinDotsSplit(s: string)
    ensures JoinDots(Split(s)) == s
  {
    if s != "" {
      var s', c := s[..|s| - 1], s[|s| - 1];
      assert s == s' + [c];
      JoinDotsSplit(s');
      SplitSnoc(s', c);
      var p := Split(s');
      if c == '.' {
        JoinDotsSnoc(p, "");
      } else if |p| == 1 {
        assert Split(s) == [p[0] + [c]];
      } else {
        var q := p[..|p| - 1];
        assert p == q + [Last(p)];
        JoinDotsSnoc(q, Last(p));
        JoinDotsSnoc(q, Last(p) + [c]);
        assert JoinDots(q) + "." + (Last(p) + [c]) == (JoinDots(q) + "." + Last(p)) + [c];
      }
    }
  }

  /**
   * The language of the pattern `^(?:LABEL\.)+TLD$`: at least one '.', every
   * part before the last '.' a label, the part after it a top-level suffix.
   */
  predicate InGrammar(s: string) {
    var parts := Split(s);
    |parts| >= 2 && (forall i :: 0 <= i < |parts| - 1 ==> IsLabel(parts[i])) && IsTld(Last(parts))
  }

  /**
   * The scanner's state: `Dead` once the input cannot match any more; otherwise
   * whether a '.' has been read, the length of the current label and whether
   * that label ends with '-'.
   */
  datatype Scan = Dead | Live(sawDot: bool, labelLength: nat, endsWithHyphen: bool)

  const START := Live(false, 0, false)

  function Step(st: Scan, c: char): Scan {
    match st
    case Dead => Dead
    case Live(sawDot, n, hyphen) =>
      if c == '.' then (if n >= 1 && !hyphen then Live(true, 0, false) else Dead)
      else if IsAlnum(c) then Live(sawDot, n + 1, false)
      else if c == '-' then (if n >= 1 then Live(sawDot, n + 1, true) else Dead)
      else Dead
  }

  /** The state after reading all of `s` from the start state. */
  function Run(s: string): Scan {
    if s == "" then START else Step(Run(s[..|s| - 1]), s[|s| - 1])
  }

  /** `Run` read one character at a time. */
  lemma {:induction false} RunSnoc(s: string, c: char)
    ensures Run(s + [c]) == Step(Run(s), c)
  {
    assert (s + [c])[..|s|] == s;
  }

  predicate Accepting(st: Scan) {
    st.Live? && st.sawDot && st.labelLength >= 2 && !st.endsWithHyphen
  }

  predicate AllLabels(ps: seq<string>) {
    forall i :: 0 <= i < |ps| ==> IsLabel(ps[i])
  }

  /** Every part before the last is a label, and the last could still grow into one. */
  predicate ScannedSoFar(s: string) {
    var parts := Split(s);
    AllLabels(parts[..|parts| - 1]) && IsLabelPrefix(Last(parts))
  }

  predicate EndsWithHyphen(l: string) {
    |l| > 0 && Last(l) == '-'
  }

  /** What the scanner remembers about `s`, read off the split. */
  function Expected(s: string): Scan {
    if ScannedSoFar(s) then
      var parts := Split(s);
      Live(|parts| >= 2, |Last(parts)|, EndsWithHyphen(Last(parts)))
    else Dead
  }

  lemma {:induction false} AllLabelsSnoc(q: seq<string>, x: string)
    ensures AllLabels(q + [x]) <==> AllLabels(q) && IsLabel(x)
  {
    assert forall i :: 0 <= i < |q| ==> (q + [x])[i] == q[i];
    assert (q + [x])[|q|] == x;
  }

  lemma {:induction false} LabelPrefixSnoc(l: string, c: char)
    ensures IsLabelPrefix(l + [c]) <==> IsLabelPrefix(l) && IsLabelChar(c) && (l == "" ==> IsAlnum(c))
  {
    var l' := l + [c];
    assert forall i :: 0 <= i < |l| ==> l'[i] == l[i];
    assert l'[|l|] == c;
  }

  /** A '.' closes the current part: the scanner survives it exactly when that part is a label. */
  lemma {:induction false} RunTracksSplitDot(s: string)
    requires Run(s) == Expected(s)
    ensures Run(s + ".") == Expected(s + ".")
  {
    RunSnoc(s, '.');
    SplitSnoc(s, '.');
    var p := Split(s);
    var q := p[..|p| - 1];
    assert p == q + [Last(p)];
    AllLabelsSnoc(q, Last(p));
    assert (p + [""])[..|p|] == p;
  }

  /** Any other character extends the current part. */
  lemma {:induction false} RunTracksSplitChar(s: string, c: char)
    requires c != '.' && Run(s) == Expected(s)
    ensures Run(s + [c]) == Expected(s + [c])
  {
    RunSnoc(s, c);
    SplitSnoc(s, c);
    var p := Split(s);
    var q := p[..|p| - 1];
    assert (q + [Last(p) + [c]])[..|q|] == q;
    LabelPrefixSnoc(Last(p), c);
  }

  /** The scanner's state after any input is exactly what the split of that input predicts. */
  lemma {:induction false} RunTracksSplit(s: string)
    ensures Run(s) == Expected(s)
  {
    if s != "" {
      var s', c := s[..|s| - 1], s[|s| - 1];
      assert s == s' + [c];
      RunTracksSplit(s');
      if c == '.' {
        RunTracksSplitDot(s');
      } else {
        RunTracksSplitChar(s', c);
      }
    }
  }

  /**
   * The match of the domain pattern, decided by the scanner. It accepts exactly
   * the strings of the grammar.
   */
  predicate MatchesEnsPattern(s: string): (r: bool)
    ensures r <==> InGrammar(s)
  {
    RunTracksSplit(s);
    Accepting(Run(s))
  }

  /** Once the scanner has rejected a prefix, no continuation is accepted. */
  lemma {:induction false} DeadStaysDead(s: string, t: string)
    requires Run(s) == Dead
    ensures Run(s + t) == Dead
  {
    if t != "" {
      var t', c := t[..|t| - 1], t[|t| - 1];
      DeadStaysDead(s, t');
      assert s + t == (s + t') + [c];
      RunSnoc(s + t', c);
    } else {
      assert s + t == s;
    }
  }

  /** While the scanner is alive it has read only `[a-z0-9.-]`, and it has seen a '.' only if there is one. */
  lemma {:induction false} LiveScanAlphabet(s: string)
    requires Run(s).Live?
    ensures forall i :: 0 <= i < |s| ==> IsLabelChar(s[i]) || s[i] == '.'
    ensures Run(s).sawDot ==> '.' in s
  {
    if s != "" {
      var s', c := s[..|s| - 1], s[|s| - 1];
      assert s == s' + [c];
      RunSnoc(s', c);
      LiveScanAlphabet(s');
    }
  }

  /** Appending text without a '.' only lengthens the last part. */
  lemma {:induction false} SplitAppendNoDot(x: string, l: string)
    requires '.' !in l
    ensures var p := Split(x); Split(x + l) == p[..|p| - 1] + [Last(p) + l]
  {
    var p := Split(x);
    if l == "" {
      assert x + l == x;
      assert Last(p) + l == Last(p);
      assert p[..|p| - 1] + [Last(p)] == p;
    } else {
      var l', c := l[..|l| - 1], l[|l| - 1];
      assert '.' !in l' && c != '.' by {
        assert l == l' + [c];
      }
      SplitAppendNoDot(x, l');
      SplitAppendNoDotSnoc(x, l', c);
      assert l' + [c] == l;
    }
  }

  /** One step of `SplitAppendNoDot`: a character other than '.' extends the last part. */
  lemma {:induction false} SplitAppendNoDotSnoc(x: string, l: string, c: char)
    requires c != '.'
    requires var p := Split(x); Split(x + l) == p[..|p| - 1] + [Last(p) + l]
    ensures var p := Split(x); Split(x + (l + [c])) == p[..|p| - 1] + [Last(p) + (l + [c])]
  {
    var p, q := Split(x), Split(x + l);
    assert x + (l + [c]) == (x + l) + [c];
    assert Split((x + l) + [c]) == q[..|q| - 1] + [Last(q) + [c]] by {
      SplitSnoc(x + l, c);
    }
    assert q[..|q| - 1] == p[..|p| - 1];
    assert Last(q) + [c] == Last(p) + (l + [c]);
  }

  /** One step of `SplitJoinDots`: a part without '.' joined at the end splits off again. */
  lemma {:induction false} SplitJoinDotsSnoc(init: seq<string>, last: string)
    requires |init| >= 1 && Split(JoinDots(init)) == init && '.' !in last
    ensures Split(JoinDots(init + [last])) == init + [last]
  {
    var j := JoinDots(init);
    JoinDotsSnoc(init, last);
    SplitSnoc(j, '.');
    SplitAppendNoDot(j + ".", last);
    assert (init + [""])[..|init|] == init;
    assert "" + last == last;
  }

  /** Splitting undoes joining, for parts without a '.'. */
  lemma {:induction false} SplitJoinDots(parts: seq<string>)
    requires |parts| >= 1 && forall i :: 0 <= i < |parts| ==> '.' !in parts[i]
    ensures Split(JoinDots(parts)) == parts
  {
    if |parts| == 1 {
      SplitAppendNoDot("", parts[0]);
      assert "" + parts[0] == parts[0];
    } else {
      var init := parts[..|parts| - 1];
      SplitJoinDots(init);
      SplitJoinDotsSnoc(init, Last(parts));
      assert init + [Last(parts)] == parts;
    }
  }

  /**
   * Labels followed by a top-level suffix, joined with '.', always match: the
   * generating direction of the pattern `^(?:LABEL\.)+TLD$`.
   */
  lemma {:induction false} LabelsWithTldMatch(labels: seq<string>, tld: string)
    requires |labels| >= 1 && (forall i :: 0 <= i < |labels| ==> IsLabel(labels[i])) && IsTld(tld)
    ensures MatchesEnsPattern(JoinDots(labels + [tld]))
  {
    var parts := labels + [tld];
    forall i | 0 <= i < |parts|
      ensures '.' !in parts[i] && IsLabel(parts[i])
    {
      assert IsLabel(parts[i]);
    }
    SplitJoinDots(parts);
  }

  /**
   * What every accepted string looks like: it contains a '.', uses only
   * `[a-z0-9.-]`, and is its parts joined with '.', where no part is empty,
   * starts or ends with '-', and the last part has at least two characters.
   */
  lemma {:induction false} AcceptedNameShape(s: string)
    requires MatchesEnsPattern(s)
    ensures '.' in s
    ensures forall i :: 0 <= i < |s| ==> IsLabelChar(s[i]) || s[i] == '.'
    ensures var parts := Split(s);
      && |parts| >= 2 && JoinDots(parts) == s
      && (forall i :: 0 <= i < |parts| ==> IsLabel(parts[i]) && '.' !in parts[i])
      && |Last(parts)| >= 2
  {
    LiveScanAlphabet(s);
    JoinDotsSplit(s);
    SplitPartsHaveNoDot(s);
  }

  /** The text after the last '.' is the last part of the split; with no '.', the split is the whole text. */
  lemma {:induction false} TextAfterLastDot(s: string)
    ensures var k := LastIndexOf(s, '.');
      && (k == -1 ==> Split(s) == [s])
      && (0 <= k ==> s[k + 1..] == Last(Split(s)))
  {
    var k := LastIndexOf(s, '.');
    if k == -1 {
      SplitWithoutDot(s);
    } else {
      SplitAfterLastDot(s, k);
    }
  }

  /** Text without a '.' splits into itself alone. */
  lemma {:induction false} SplitWithoutDot(s: string)
    requires '.' !in s
    ensures Split(s) == [s]
  {
    SplitAppendNoDot("", s);
    assert "" + s == s;
  }

  /** The text after a '.' that no later '.' follows is the last part of the split. */
  lemma {:induction false} SplitAfterLastDot(s: string, k: int)
    requires 0 <= k < |s| && s[k] == '.' && forall j :: k < j < |s| ==> s[j] != '.'
    ensures Last(Split(s)) == s[k + 1..]
  {
    var head, tail := s[..k], s[k + 1..];
    assert '.' !in tail by {
      forall i | 0 <= i < |tail| ensures tail[i] != '.' {
        assert tail[i] == s[k + 1 + i];
      }
    }
    assert s == (head + ".") + tail;
    SplitSnoc(head, '.');
    SplitAppendNoDot(head + ".", tail);
    assert "" + tail == tail;
  }

  /** The first character of an accepted string is a letter or digit, never '.'. */
  lemma {:induction false} AcceptedNameStartsWithLabel(s: string)
    requires MatchesEnsPattern(s)
    ensures |s| > 0 && IsAlnum(s[0])
  {
    AcceptedNameShape(s);
    if !IsAlnum(s[0]) {
      assert s == [s[0]] + s[1..];
      assert Run([s[0]]) == Dead by {
        assert [s[0]][..0] == "";
      }
      DeadStaysDead([s[0]], s[1..]);
    }
  }

  // ---------------------------------------------------------------------------
  // isENS
  // ---------------------------------------------------------------------------

  /** The source's offset between the last '.' and the suffix it slices out. */
  const OFFSET := 1

  /**
   * The lower-casing helper `tlc` is foreign; it is only tested for truthiness.
   * The model assumes it returns "" exactly for "".
   */
  ghost predicate KeepsEmptiness(tlc: string -> string) {
    forall x :: tlc(x) == "" <==> x == ""
  }

  /**
   * The slice check on the original name: its last '.' must sit at index
   * `OFFSET` or later, and `tlc` of the text after it must be truthy.
   */
  function SuffixCheck(n: string, tlc: string -> string): (r: bool)
    ensures r <==> 1 <= LastIndexOf(n, '.') && tlc(n[LastIndexOf(n, '.') + 1..]) != ""
  {
    var index := LastIndexOf(n, '.');
    assert index >= 0 ==> Substr(n, index + OFFSET, |n| - OFFSET) == n[index + 1..];
    index != 0 && index >= OFFSET && tlc(Substr(n, index + OFFSET, |n| - OFFSET)) != ""
  }

  /**
   * `isENS`: a falsy name is rejected; otherwise the Punycode-ASCII,
   * lower-cased name must match the domain pattern AND the original name must
   * pass the slice check. `toAscii` is `punycode.toASCII`, `tlc` the foreign
   * lower-casing helper.
   */
  function IsEns(name: OptStr, toAscii: string -> string, tlc: string -> string): (r: bool)
    ensures !name.Truthy() ==> !r
    ensures r <==> (name.Str? && 1 <= LastIndexOf(name.value, '.')
                    && tlc(name.value[LastIndexOf(name.value, '.') + 1..]) != ""
                    && MatchesEnsPattern(ToLower(toAscii(name.value))))
  {
    if !name.Truthy() then false
    else
      var n := name.value;
      var matched := MatchesEnsPattern(ToLower(toAscii(n)));
      var index := LastIndexOf(n, '.');
      index != 0 && SuffixCheck(n, tlc) && matched
  }

  /**
   * Both directions of `isENS`, given that `tlc` keeps emptiness: a name is
   * accepted exactly when its last '.' is at index 1 or later, something
   * follows it, and the normalised name matches the pattern.
   */
  lemma {:induction false} IsEnsExactly(n: string, toAscii: string -> string, tlc: string -> string)
    requires KeepsEmptiness(tlc)
    ensures IsEns(Str(n), toAscii, tlc) <==>
      1 <= LastIndexOf(n, '.') < |n| - 1 && MatchesEnsPattern(ToLower(toAscii(n)))
  {
    var k := LastIndexOf(n, '.');
    if 1 <= k {
      assert tlc(n[k + 1..]) != "" <==> k < |n| - 1;
    }
  }

  /**
   * When normalisation leaves the name unchanged, the slice check adds nothing:
   * `isENS` is exactly the pattern match on the lower-cased name.
   */
  lemma {:induction false} SliceCheckImpliedByPattern(n: string, toAscii: string -> string, tlc: string -> string)
    requires toAscii(n) == n && KeepsEmptiness(tlc)
    ensures IsEns(Str(n), toAscii, tlc) == MatchesEnsPattern(ToLower(n))
  {
    IsEnsExactly(n, toAscii, tlc);
    var t := ToLower(n);
    if MatchesEnsPattern(t) {
      AcceptedNameShape(t);
      AcceptedNameStartsWithLabel(t);
      LastIndexOfLower(n, '.');
      TextAfterLastDot(t);
      var k := LastIndexOf(t, '.');
      assert k != 0;
    }
  }

  /** A name the normaliser leaves alone and that has two well-formed parts is accepted, in any letter case. */
  lemma {:induction false} VitalikEthAccepted(toAscii: string -> string, tlc: string -> string)
    requires toAscii("vitalik.eth") == "vitalik.eth" && toAscii("Vitalik.ETH") == "Vitalik.ETH"
    requires KeepsEmptiness(tlc)
    ensures IsEns(Str("vitalik.eth"), toAscii, tlc)
    ensures IsEns(Str("Vitalik.ETH"), toAscii, tlc)
  {
    assert ToLower("vitalik.eth") == "vitalik.eth";
    assert ToLower("Vitalik.ETH") == "vitalik.eth";
    LabelsWithTldMatch(["vitalik"], "eth");
    assert JoinDots(["vitalik"] + ["eth"]) == "vitalik.eth";
    SliceCheckImpliedByPattern("vitalik.eth", toAscii, tlc);
    SliceCheckImpliedByPattern("Vitalik.ETH", toAscii, tlc);
  }

  /** A label that starts with '-' is rejected, whatever follows. */
  lemma {:induction false} LeadingHyphenRejected(toAscii: string -> string, tlc: string -> string)
    requires toAscii("-bad-.eth") == "-bad-.eth"
    ensures !IsEns(Str("-bad-.eth"), toAscii, tlc)
  {
    assert ToLower("-bad-.eth") == "-bad-.eth";
    assert Run("-") == Dead by {
      assert "-"[..0] == "";
    }
    DeadStaysDead("-", "bad-.eth");
    assert "-" + "bad-.eth" == "-bad-.eth";
  }

  /**
   * A name without '.' is rejected whatever the normaliser makes of it: the
   * slice check on the original name fails, even where the pattern matches.
   */
  lemma {:induction false} NoDotRejected(n: string, toAscii: string -> string, tlc: string -> string)
    requires '.' !in n
    ensures !IsEns(Str(n), toAscii, tlc)
  {
    assert LastIndexOf(n, '.') == -1;
  }

  /** Without a '.', or with no text at all, a name is rejected whatever the collaborators do. */
  lemma {:induction false} NamesWithoutDotRejected(toAscii: string -> string, tlc: string -> string)
    ensures !IsEns(Str("noTld"), toAscii, tlc)
    ensures !IsEns(Str(""), toAscii, tlc) && !IsEns(Null, toAscii, tlc) && !IsEns(Undefined, toAscii, tlc)
  {
    assert '.' !in "noTld";
  }

  /**
   * The two checks can disagree, shown on one name: when the normaliser turns
   * the ideographic full stop (U+3002) of "a\u3002bc" into '.', the pattern
   * matches, but the original name has no '.', so the name is rejected.
   */
  lemma {:induction false} IdeographicStopRejected(toAscii: string -> string, tlc: string -> string)
    requires toAscii("a\U{3002}bc") == "a.bc"
    ensures MatchesEnsPattern(ToLower(toAscii("a\U{3002}bc")))
    ensures !IsEns(Str("a\U{3002}bc"), toAscii, tlc)
  {
    assert ToLower("a.bc") == "a.bc";
    LabelsWithTldMatch(["a"], "bc");
    assert JoinDots(["a"] + ["bc"]) == "a.bc";
    assert '.' !in "a\U{3002}bc";
    NoDotRejected("a\U{3002}bc", toAscii, tlc);
  }
}
