/** A stand-in for the `domain` crate's absolute domain names: reading one
    from its presentation form (`Name::from_str`), writing it back, and its
    canonical wire form (`compose_canonical`, section 6.2 of RFC 4034).
    Escape sequences in the presentation form are not part of this
    stand-in. */
module DomainNames {
  import opened Base

  /** An absolute name: its labels from the leftmost one down; the root label
      is implied. */
  datatype Name = Name(labels: seq<string>)

  const MAX_LABEL_LEN := 63
  const MAX_NAME_LEN := 255

  predicate NoDot(l: string) {
    forall j :: 0 <= j < |l| ==> l[j] != '.'
  }

  predicate ValidLabel(l: string) {
    1 <= |l| <= MAX_LABEL_LEN && IsAscii(l) && NoDot(l)
  }

  /** Octets of the wire form: a length octet per label plus its content,
      and the final zero octet of the root. */
  function WireLength(labels: seq<string>): nat
    decreases |labels|
  {
    if labels == [] then 1 else 1 + |labels[0]| + WireLength(labels[1..])
  }

  predicate ValidName(n: Name) {
    (forall i :: 0 <= i < |n.labels| ==> ValidLabel(n.labels[i]))
    && WireLength(n.labels) <= MAX_NAME_LEN
  }

  type DomainName = n: Name | ValidName(n) witness Name([])

  //--- Presentation form

  /** The pieces of `s` between dots. */
  function Split(s: string): (r: seq<string>)
    ensures |r| >= 1
    ensures forall i :: 0 <= i < |r| ==> NoDot(r[i])
    decreases |s|
  {
    if s == [] then [[]]
    else
      var rest := Split(s[1..]);
      if s[0] == '.' then [[]] + rest else [[s[0]] + rest[0]] + rest[1..]
  }

  const EMPTY_LABEL := "empty label"
  const LONG_LABEL := "label too long"
  const BAD_CHAR := "illegal character in label"
  const LONG_NAME := "domain name too long"

  predicate HasEmptyLabel(labels: seq<string>) {
    exists i :: 0 <= i < |labels| && labels[i] == []
  }

  predicate HasLongLabel(labels: seq<string>) {
    exists i :: 0 <= i < |labels| && |labels[i]| > MAX_LABEL_LEN
  }

  predicate HasNonAsciiLabel(labels: seq<string>) {
    exists i :: 0 <= i < |labels| && !IsAscii(labels[i])
  }

  /** The checks `Name::from_str` makes of the pieces, in order. */
  function CheckLabels(labels: seq<string>): (r: Result<DomainName, string>)
    requires forall i :: 0 <= i < |labels| ==> NoDot(labels[i])
    ensures r.Ok? ==> r.value.labels == labels
  {
    if HasEmptyLabel(labels) then Err(EMPTY_LABEL)
    else if HasLongLabel(labels) then Err(LONG_LABEL)
    else if HasNonAsciiLabel(labels) then Err(BAD_CHAR)
    else if WireLength(labels) > MAX_NAME_LEN then Err(LONG_NAME)
    else Ok(Name(labels))
  }

  /** The text `s` without one final dot, if it has one. */
  function DropFinalDot(s: string): string {
    if |s| > 0 && s[|s| - 1] == '.' then s[..|s| - 1] else s
  }

  /** `Name::from_str`: `.` is the root; otherwise one final dot is optional
      and the text between dots gives the labels. */
  function NameFromStr(s: string): Result<DomainName, string> {
    if s == "." then Ok(Name([])) else CheckLabels(Split(DropFinalDot(s)))
  }

  /** Labels joined by dots. */
  function Join(labels: seq<string>): string
    decreases |labels|
  {
    if labels == [] then ""
    else if |labels| == 1 then labels[0]
    else labels[0] + "." + Join(labels[1..])
  }

  /** `Display` for names: the labels, each followed by a dot; the root is a
      lone dot. */
  function NameToString(n: DomainName): string {
    if n.labels == [] then "." else Join(n.labels) + "."
  }

  lemma {:induction false} SplitNoDot(l: string)
    requires NoDot(l)
    ensures Split(l) == [l]
    decreases |l|
  {
    if l != [] {
      SplitNoDot(l[1..]);
      assert [l[0]] + l[1..] == l;
    }
  }

  lemma {:induction false} SplitLabelThenRest(l: string, rest: string)
    requires NoDot(l)
    ensures Split(l + "." + rest) == [l] + Split(rest)
    decreases |l|
  {
    var s := l + "." + rest;
    if l == [] {
      assert s[0] == '.' && s[1..] == rest;
    } else {
      assert s[0] == l[0] && s[1..] == l[1..] + "." + rest;
      SplitLabelThenRest(l[1..], rest);
      assert [l[0]] + l[1..] == l;
    }
  }

  lemma {:induction false} SplitJoin(labels: seq<string>)
    requires |labels| >= 1
    requires forall i :: 0 <= i < |labels| ==> NoDot(labels[i])
    ensures Split(Join(labels)) == labels
    decreases |labels|
  {
    if |labels| == 1 {
      SplitNoDot(labels[0]);
    } else {
      SplitJoin(labels[1..]);
      SplitLabelThenRest(labels[0], Join(labels[1..]));
    }
  }

  /** Every character of a text whose pieces are ASCII is ASCII. */
  lemma {:induction false} SplitAscii(t: string)
    requires forall i :: 0 <= i < |Split(t)| ==> IsAscii(Split(t)[i])
    ensures IsAscii(t)
    decreases |t|
  {
    if t != [] {
      var rest := Split(t[1..]);
      forall i | 0 <= i < |rest| ensures IsAscii(rest[i]) {
        if t[0] == '.' {
          assert rest[i] == Split(t)[i + 1];
        } else if i == 0 {
          var first := Split(t)[0];
          assert first == [t[0]] + rest[0];
          forall j | 0 <= j < |rest[0]| ensures rest[0][j] < 128 as char {
            assert rest[0][j] == first[j + 1];
          }
        } else {
          assert rest[i] == Split(t)[i];
        }
      }
      SplitAscii(t[1..]);
      assert t[0] < 128 as char by {
        if t[0] != '.' {
          assert Split(t)[0][0] == t[0];
        }
      }
      assert forall j :: 1 <= j < |t| ==> t[j] == t[1..][j - 1];
    }
  }

  /** A text the reader accepts is ASCII throughout. */
  lemma NameFromStrAscii(s: string)
    ensures NameFromStr(s).Ok? ==> IsAscii(s)
  {
    if NameFromStr(s).Ok? && s != "." {
      var t := DropFinalDot(s);
      SplitAscii(t);
      assert s == t || s == t + ".";
    }
  }

  /** Reading back the presentation form of a name gives the same name. */
  lemma NameStringRoundTrip(n: DomainName)
    ensures NameFromStr(NameToString(n)) == Ok(n)
  {
    var s := NameToString(n);
    if n.labels != [] {
      assert DropFinalDot(s) == Join(n.labels);
      SplitJoin(n.labels);
      assert |n.labels[0]| >= 1;
      assert s != "." by {
        assert |s| >= 2;
      }
    }
  }

  //--- Canonical wire form

  /** One label's content, lower-cased, as octets. */
  function CanonicalLabel(l: string): (b: Bytes)
    requires IsAscii(l)
    ensures |b| == |l|
  {
    seq(|l|, i requires 0 <= i < |l| => LowerChar(l[i]) as int)
  }

  function LabelsWire(labels: seq<string>): Bytes
    requires forall i :: 0 <= i < |labels| ==> ValidLabel(labels[i])
    decreases |labels|
  {
    if labels == [] then [0]
    else
      assert ValidLabel(labels[0]);
      var len: byte := |labels[0]|;
      [len] + CanonicalLabel(labels[0]) + LabelsWire(labels[1..])
  }

  /** `compose_canonical`: each label as its length octet and its
      lower-cased content, ending with the root's zero octet. */
  function Canonical(n: DomainName): Bytes {
    LabelsWire(n.labels)
  }

  lemma {:induction false} LabelsWireLength(labels: seq<string>)
    requires forall i :: 0 <= i < |labels| ==> ValidLabel(labels[i])
    ensures |LabelsWire(labels)| == WireLength(labels)
    ensures LabelsWire(labels)[|LabelsWire(labels)| - 1] == 0
    decreases |labels|
  {
    if labels != [] {
      LabelsWireLength(labels[1..]);
    }
  }

  /** The canonical form is as long as the wire form (never more than 255
      octets) and ends with the root's zero octet. */
  lemma CanonicalShape(n: DomainName)
    ensures |Canonical(n)| == WireLength(n.labels) <= MAX_NAME_LEN
    ensures Canonical(n)[|Canonical(n)| - 1] == 0
  {
    LabelsWireLength(n.labels);
  }

  /** Two names whose labels agree up to ASCII case have the same canonical
      form. */
  lemma {:induction false} CanonicalIgnoresCase(n: DomainName, m: DomainName)
    requires |n.labels| == |m.labels|
    requires forall i :: 0 <= i < |n.labels| ==> Lower(n.labels[i]) == Lower(m.labels[i])
    ensures Canonical(n) == Canonical(m)
  {
    LabelsWireIgnoresCase(n.labels, m.labels);
  }

  lemma {:induction false} LabelsWireIgnoresCase(a: seq<string>, b: seq<string>)
    requires forall i :: 0 <= i < |a| ==> ValidLabel(a[i])
    requires forall i :: 0 <= i < |b| ==> ValidLabel(b[i])
    requires |a| == |b|
    requires forall i :: 0 <= i < |a| ==> Lower(a[i]) == Lower(b[i])
    ensures LabelsWire(a) == LabelsWire(b)
    decreases |a|
  {
    if a != [] {
      LabelsWireIgnoresCase(a[1..], b[1..]);
      assert |a[0]| == |Lower(a[0])| == |b[0]|;
      assert CanonicalLabel(a[0]) == CanonicalLabel(b[0]) by {
        forall j | 0 <= j < |a[0]| ensures LowerChar(a[0][j]) == LowerChar(b[0][j]) {
          assert Lower(a[0])[j] == Lower(b[0])[j];
        }
      }
    }
  }

  //--- Lower-casing before reading

  function LowerLabels(labels: seq<string>): (r: seq<string>)
    ensures |r| == |labels|
    ensures forall i :: 0 <= i < |labels| ==> r[i] == Lower(labels[i])
  {
    seq(|labels|, i requires 0 <= i < |labels| => Lower(labels[i]))
  }

  /** No upper-case letter is left in a lower-cased label. */
  lemma LowerLabelsLowerCase(labels: seq<string>)
    ensures forall i :: 0 <= i < |labels| ==> IsLowerCase(LowerLabels(labels)[i])
  {
    forall i, j | 0 <= i < |labels| && 0 <= j < |labels[i]|
      ensures !IsAsciiUpper(LowerLabels(labels)[i][j])
    {
      LowerCharFacts(labels[i][j]);
    }
  }

  lemma LowerCharFacts(c: char)
    ensures LowerChar(c) == '.' <==> c == '.'
    ensures LowerChar(c) < 128 as char <==> c < 128 as char
    ensures !IsAsciiUpper(LowerChar(c))
  {
  }

  lemma LowerCons(c: char, s: string)
    ensures Lower([c] + s) == [LowerChar(c)] + Lower(s)
  {
  }

  lemma LowerLabelsCons(l: string, ls: seq<string>)
    ensures LowerLabels([l] + ls) == [Lower(l)] + LowerLabels(ls)
  {
  }

  lemma {:induction false} SplitLower(s: string)
    ensures Split(Lower(s)) == LowerLabels(Split(s))
    decreases |s|
  {
    if s == [] {
      assert Lower(s) == [];
      assert Lower([]) == [];
      assert LowerLabels([[]]) == [[]];
    } else {
      var t := Lower(s);
      LowerCons(s[0], s[1..]);
      assert [s[0]] + s[1..] == s;
      assert t[0] == LowerChar(s[0]) && t[1..] == Lower(s[1..]);
      SplitLower(s[1..]);
      LowerCharFacts(s[0]);
      var rest := Split(s[1..]);
      if s[0] != '.' {
        LowerCons(s[0], rest[0]);
        assert rest == [rest[0]] + rest[1..];
        LowerLabelsCons(rest[0], rest[1..]);
        LowerLabelsCons([s[0]] + rest[0], rest[1..]);
      } else {
        assert Lower([]) == [];
        LowerLabelsCons([], rest);
      }
    }
  }

  lemma {:induction false} WireLengthLower(labels: seq<string>)
    ensures WireLength(LowerLabels(labels)) == WireLength(labels)
    decreases |labels|
  {
    if labels != [] {
      assert LowerLabels(labels)[1..] == LowerLabels(labels[1..]);
      WireLengthLower(labels[1..]);
    }
  }

  lemma AsciiLower(l: string)
    ensures IsAscii(Lower(l)) <==> IsAscii(l)
  {
    forall j | 0 <= j < |l| ensures Lower(l)[j] < 128 as char <==> l[j] < 128 as char {
      LowerCharFacts(l[j]);
    }
  }

  lemma {:induction false} LowerLabelsFacts(labels: seq<string>)
    ensures forall i :: 0 <= i < |labels| ==>
      |LowerLabels(labels)[i]| == |labels[i]|
      && (NoDot(LowerLabels(labels)[i]) <==> NoDot(labels[i]))
      && (IsAscii(LowerLabels(labels)[i]) <==> IsAscii(labels[i]))
  {
    var low := LowerLabels(labels);
    forall i | 0 <= i < |labels|
      ensures (NoDot(low[i]) <==> NoDot(labels[i])) && (IsAscii(low[i]) <==> IsAscii(labels[i]))
    {
      forall j | 0 <= j < |labels[i]| ensures low[i][j] == '.' <==> labels[i][j] == '.' {
        LowerCharFacts(labels[i][j]);
      }
      AsciiLower(labels[i]);
    }
  }

  /** Label sequences that agree in label lengths and in which labels are
      ASCII pass and fail the same label checks. */
  lemma SameLabelChecks(a: seq<string>, b: seq<string>)
    requires |a| == |b|
    requires forall i :: 0 <= i < |a| ==> |a[i]| == |b[i]| && (IsAscii(a[i]) <==> IsAscii(b[i]))
    ensures HasEmptyLabel(a) <==> HasEmptyLabel(b)
    ensures HasLongLabel(a) <==> HasLongLabel(b)
    ensures HasNonAsciiLabel(a) <==> HasNonAsciiLabel(b)
  {
    if HasEmptyLabel(a) {
      var i :| 0 <= i < |a| && a[i] == [];
      assert b[i] == [];
    }
    if HasEmptyLabel(b) {
      var i :| 0 <= i < |b| && b[i] == [];
      assert a[i] == [];
    }
    if HasLongLabel(a) {
      var i :| 0 <= i < |a| && |a[i]| > MAX_LABEL_LEN;
      assert |b[i]| > MAX_LABEL_LEN;
    }
    if HasNonAsciiLabel(a) {
      var i :| 0 <= i < |a| && !IsAscii(a[i]);
      assert !IsAscii(b[i]);
    }
  }

  lemma CheckLabelsLower(labels: seq<string>)
    requires forall i :: 0 <= i < |labels| ==> NoDot(labels[i])
    ensures forall i :: 0 <= i < |labels| ==> NoDot(LowerLabels(labels)[i])
    ensures CheckLabels(LowerLabels(labels)).Ok? <==> CheckLabels(labels).Ok?
    ensures CheckLabels(labels).Err? ==> CheckLabels(LowerLabels(labels)) == CheckLabels(labels)
  {
    LowerLabelsFacts(labels);
    WireLengthLower(labels);
    SameLabelChecks(labels, LowerLabels(labels));
  }

  /** Lower-casing the text before reading it accepts exactly the same texts,
      fails with the same message, and gives the lower-cased labels. */
  lemma NameFromStrLower(s: string)
    ensures NameFromStr(Lower(s)).Ok? <==> NameFromStr(s).Ok?
    ensures NameFromStr(s).Err? ==> NameFromStr(Lower(s)) == NameFromStr(s)
    ensures NameFromStr(s).Ok? ==>
      NameFromStr(Lower(s)).value.labels == LowerLabels(NameFromStr(s).value.labels)
  {
    var t := Lower(s);
    if s == "." {
      assert t == ".";
      assert LowerLabels([]) == [];
    } else {
      if |s| == 1 {
        LowerCharFacts(s[0]);
        assert t[0] != '.';
      }
      if |s| > 0 {
        LowerCharFacts(s[|s| - 1]);
      }
      assert DropFinalDot(t) == Lower(DropFinalDot(s));
      SplitLower(DropFinalDot(s));
      CheckLabelsLower(Split(DropFinalDot(s)));
    }
  }
}
