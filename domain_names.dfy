/** `NameOrRdata::to_string_domain`: a name in the wire format of section 3.1
    of RFC 1035 (length-prefixed labels closed by a zero length byte) written
    in dotted form, each label followed by '.'. */
module DomainNames {
  import opened Cbor

  const Dot: Byte := 46

  /** The replacement text when the collected bytes are not valid UTF-8. */
  const InvalidDomain: seq<Byte> := AsciiBytes("<invalid-domain>")

  /** Reading from `pos` on reaches a zero length byte without running past
      the end of the buffer: every length byte and every label is in range. */
  predicate WellFormedFrom(name: seq<Byte>, pos: nat)
    decreases |name| - pos
  {
    && pos < |name|
    && (name[pos] != 0 ==>
          && pos + 1 + name[pos] <= |name|
          && WellFormedFrom(name, pos + 1 + name[pos]))
  }

  predicate WellFormed(name: seq<Byte>) {
    WellFormedFrom(name, 0)
  }

  /** The labels read from `pos` on, up to the first zero length byte. */
  function LabelsFrom(name: seq<Byte>, pos: nat): (r: seq<seq<Byte>>)
    requires WellFormedFrom(name, pos)
    ensures forall k :: 0 <= k < |r| ==> 1 <= |r[k]| < 256
    decreases |name| - pos
  {
    if name[pos] == 0 then []
    else [name[pos + 1..pos + 1 + name[pos]]] + LabelsFrom(name, pos + 1 + name[pos])
  }

  function Labels(name: seq<Byte>): seq<seq<Byte>>
    requires WellFormed(name)
  {
    LabelsFrom(name, 0)
  }

  /** Each label followed by a dot. */
  function Dotted(labels: seq<seq<Byte>>): seq<Byte> {
    if labels == [] then [] else labels[0] + [Dot] + Dotted(labels[1..])
  }

  /** The wire form of a list of labels, closed by the zero length byte. */
  function Encode(labels: seq<seq<Byte>>): (r: seq<Byte>)
    requires forall k :: 0 <= k < |labels| ==> 1 <= |labels[k]| < 256
    ensures r != [] && r[|r| - 1] == 0
  {
    if labels == [] then [0] else [|labels[0]| as Byte] + labels[0] + Encode(labels[1..])
  }

  function SumOfLengths(labels: seq<seq<Byte>>): nat {
    if labels == [] then 0 else |labels[0]| + SumOfLengths(labels[1..])
  }

  /** The result of `to_string_domain` (as bytes of the returned `String`):
      the dotted labels when they are valid UTF-8, the replacement otherwise.
      UTF-8 validity is the parameter `isUtf8`. */
  function DomainText(name: seq<Byte>, isUtf8: seq<Byte> -> bool): seq<Byte>
    requires WellFormed(name)
  {
    var dotted := Dotted(Labels(name));
    if isUtf8(dotted) then dotted else InvalidDomain
  }

  /** `NameOrRdata::to_string_domain`. A name that is empty or cut short makes
      the source index out of range, so well-formedness is required. */
  method ToStringDomain(name: seq<Byte>, isUtf8: seq<Byte> -> bool) returns (s: seq<Byte>)
    requires WellFormed(name)
    ensures s == DomainText(name, isUtf8)
  {
    var res: seq<Byte> := [];
    var pos: nat := 0;
    while true
      invariant WellFormedFrom(name, pos)
      invariant Dotted(Labels(name)) == res + Dotted(LabelsFrom(name, pos))
      decreases |name| - pos
    {
      var len := name[pos];
      if len == 0 {
        break;
      }
      DottedStep(name, pos, res, Dotted(Labels(name)));
      pos := pos + 1;
      res := res + name[pos..pos + len] + [Dot];
      pos := pos + len;
    }
    assert LabelsFrom(name, pos) == [];
    assert res == Dotted(Labels(name));
    if isUtf8(res) {
      s := res;
    } else {
      s := InvalidDomain;
    }
  }

  /** One turn of the loop: the label at `pos` and a dot move from the
      labels still to read to the text written so far. */
  lemma DottedStep(name: seq<Byte>, pos: nat, res: seq<Byte>, total: seq<Byte>)
    requires WellFormedFrom(name, pos) && name[pos] != 0
    requires total == res + Dotted(LabelsFrom(name, pos))
    ensures WellFormedFrom(name, pos + 1 + name[pos])
    ensures total == res + name[pos + 1..pos + 1 + name[pos]] + [Dot] + Dotted(LabelsFrom(name, pos + 1 + name[pos]))
  {
    var labels, rest := LabelsFrom(name, pos), LabelsFrom(name, pos + 1 + name[pos]);
    var first := name[pos + 1..pos + 1 + name[pos]];
    assert labels == [first] + rest;
    assert labels[1..] == rest;
    assert Dotted(labels) == first + [Dot] + Dotted(rest);
  }

  /** The root name, a single zero byte, gives the empty text. */
  lemma RootIsEmpty(isUtf8: seq<Byte> -> bool)
    requires isUtf8([])
    ensures DomainText([0], isUtf8) == []
  {
  }

  /** The dotted form is as long as all labels together plus one dot per
      label. */
  lemma {:induction false} DottedLength(labels: seq<seq<Byte>>)
    ensures |Dotted(labels)| == SumOfLengths(labels) + |labels|
  {
    if labels != [] {
      DottedLength(labels[1..]);
    }
  }

  /** A non-root name is written fully qualified: its text ends in a dot. */
  lemma {:induction false} EndsWithDot(labels: seq<seq<Byte>>)
    requires labels != []
    ensures |Dotted(labels)| > 0 && Dotted(labels)[|Dotted(labels)| - 1] == Dot
  {
    if labels[1..] != [] {
      EndsWithDot(labels[1..]);
    }
  }

  /** Reading stops at the first zero length byte: whatever follows the name
      (and whatever precedes the reading position) is never looked at. */
  lemma {:induction false} LabelsOfEncoding(before: seq<Byte>, labels: seq<seq<Byte>>, after: seq<Byte>)
    requires forall k :: 0 <= k < |labels| ==> 1 <= |labels[k]| < 256
    ensures WellFormedFrom(before + Encode(labels) + after, |before|)
    ensures LabelsFrom(before + Encode(labels) + after, |before|) == labels
    decreases |labels|
  {
    var name := before + Encode(labels) + after;
    if labels == [] {
      assert name[|before|] == 0;
    } else {
      var n := |labels[0]|;
      var before' := before + [n as Byte] + labels[0];
      assert name == before' + Encode(labels[1..]) + after;
      LabelsOfEncoding(before', labels[1..], after);
      assert name[|before|] == n;
      assert name[|before| + 1..|before| + 1 + n] == labels[0];
    }
  }

  /** Wire-encoding labels of 1 to 255 bytes and then decoding gives each
      label followed by a dot, whatever bytes trail the name. */
  lemma EncodeThenDecode(labels: seq<seq<Byte>>, after: seq<Byte>, isUtf8: seq<Byte> -> bool)
    requires forall k :: 0 <= k < |labels| ==> 1 <= |labels[k]| < 256
    requires isUtf8(Dotted(labels))
    ensures WellFormed(Encode(labels) + after)
    ensures DomainText(Encode(labels) + after, isUtf8) == Dotted(labels)
  {
    var name := Encode(labels) + after;
    assert name == [] + Encode(labels) + after;
    LabelsOfEncoding([], labels, after);
    assert Labels(name) == labels;
  }

  /** The position of the zero length byte that ends the name read from
      `pos`. */
  function EndFrom(name: seq<Byte>, pos: nat): (stop: nat)
    requires WellFormedFrom(name, pos)
    ensures pos <= stop < |name| && name[stop] == 0
    decreases |name| - pos
  {
    if name[pos] == 0 then pos else EndFrom(name, pos + 1 + name[pos])
  }

  /** Decoding and re-encoding a well-formed name gives back the name up to
      and including its zero length byte. */
  lemma {:induction false} DecodeThenEncode(name: seq<Byte>, pos: nat)
    requires WellFormedFrom(name, pos)
    ensures name[pos..EndFrom(name, pos) + 1] == Encode(LabelsFrom(name, pos))
    decreases |name| - pos
  {
    if name[pos] == 0 {
      assert name[pos..pos + 1] == [0];
    } else {
      var next := pos + 1 + name[pos];
      var stop := EndFrom(name, next);
      DecodeThenEncode(name, next);
      var first := name[pos + 1..next];
      var labels, rest := LabelsFrom(name, pos), LabelsFrom(name, next);
      assert labels == [first] + rest;
      assert labels[0] == first && labels[1..] == rest;
      assert |first| as Byte == name[pos];
      assert EndFrom(name, pos) == stop;
      calc {
        name[pos..stop + 1];
      == { SliceSplit(name, pos, next, stop + 1); }
        name[pos..next] + name[next..stop + 1];
      == { SliceSplit(name, pos, pos + 1, next); assert name[pos..pos + 1] == [name[pos]]; }
        [name[pos]] + first + Encode(rest);
      == 
        Encode(labels);
      }
    }
  }

  /** A slice splits at any position inside it (a helper of the proof above). */
  lemma SliceSplit(s: seq<Byte>, i: nat, j: nat, k: nat)
    requires i <= j <= k <= |s|
    ensures s[i..k] == s[i..j] + s[j..k]
  {
  }

  /** Only the bytes up to the ending zero byte are read: a name that agrees
      with another on them decodes to the same labels. */
  lemma {:induction false} OnlyUpToEndIsRead(name: seq<Byte>, other: seq<Byte>, pos: nat)
    requires WellFormedFrom(name, pos)
    requires EndFrom(name, pos) < |other|
    requires other[pos..EndFrom(name, pos) + 1] == name[pos..EndFrom(name, pos) + 1]
    ensures WellFormedFrom(other, pos)
    ensures LabelsFrom(other, pos) == LabelsFrom(name, pos)
    decreases |name| - pos
  {
    var stop := EndFrom(name, pos);
    forall i | pos <= i <= stop
      ensures other[i] == name[i]
    {
      assert other[i] == other[pos..stop + 1][i - pos];
      assert name[i] == name[pos..stop + 1][i - pos];
    }
    if name[pos] != 0 {
      var next := pos + 1 + name[pos];
      assert stop == EndFrom(name, next);
      assert other[next..stop + 1] == name[next..stop + 1];
      OnlyUpToEndIsRead(name, other, next);
      assert other[pos + 1..next] == name[pos + 1..next];
    }
  }
}
