/** The byte-range header value the streaming server accepts: "bytes=" then
    a first position, a dash and an optional last position (the "bytes" unit
    of section 14.35 of RFC 2616, without range lists or suffix ranges). */
module StreamRange {
  import opened Common

  const ACCEPTED_UNIT := "bytes"

  /** An inclusive byte range. */
  datatype Range = Range(first: int, last: int)
  {
    function Size(): (n: int)
      ensures n > 0 <==> first <= last
      ensures first == last ==> n == 1
      ensures first + n == last + 1
    {
      last - first + 1
    }
  }

  /** extractRangeFromHTTPfield. The last position falls back to the last
      byte of the file when it is missing or not a number; it is never
      compared with the file size. */
  function ExtractRange(value: string, fileSize: int): (r: Option<Range>)
    ensures '=' !in value ==> r == None
    ensures r.Some? ==> |value| > 6 && value[..6] == ACCEPTED_UNIT + "="
    ensures r.Some? ==> 0 <= r.value.first <= r.value.last && r.value.Size() > 0
    ensures r.Some? ==> r.value.first <= INT64_MAX
  {
    var eq := IndexOf(value, '=', 0);
    if eq == -1 then None
    else
      var unit := Left(value, eq);
      if unit != ACCEPTED_UNIT then None
      else
        var dash := IndexOf(value, '-', eq + 1);
        if dash == -1 then None
        else
          match ToLongLong(Mid(value, eq + 1, dash - eq - 1))
          case None => None
          case Some(first) =>
            var last := match ToLongLong(MidTail(value, dash + 1))
                        case Some(v) => v
                        case None => fileSize - 1;
            if first > last then None
            else
              assert value[..6] == unit + "=";
              NoMinusNonNegative(Mid(value, eq + 1, dash - eq - 1), INT64_MIN, INT64_MAX);
              Some(Range(first, last))
  }

  /** Where the pieces of "bytes=<a>-<b>" are found when `a` has no dash. */
  lemma Decompose(a: string, b: string)
    requires '-' !in a
    ensures var v := ACCEPTED_UNIT + "=" + a + "-" + b;
      && IndexOf(v, '=', 0) == 5
      && Left(v, 5) == ACCEPTED_UNIT
      && IndexOf(v, '-', 6) == 6 + |a|
      && Mid(v, 6, |a|) == a
      && MidTail(v, 7 + |a|) == b
  {
    var v := ACCEPTED_UNIT + "=" + a + "-" + b;
    IndexOfAt(v, '=', 0, 5);
    forall j | 6 <= j < 6 + |a| ensures v[j] != '-' {
      assert v[j] == a[j - 6];
    }
    IndexOfAt(v, '-', 6, 6 + |a|);
    assert v[6 .. 6 + |a|] == a;
    assert v[7 + |a| ..] == b;
  }

  /** The text a client sends for a closed range. */
  function RangeText(first: nat, last: nat): string
  {
    ACCEPTED_UNIT + "=" + Number(first) + "-" + Number(last)
  }

  /** A well-formed closed range is read back exactly, whatever the file
      size: a last position past the end of the file is accepted. */
  lemma RangeRoundTrip(first: nat, last: nat, fileSize: int)
    requires first <= last <= INT64_MAX
    ensures ExtractRange(RangeText(first, last), fileSize) == Some(Range(first, last))
  {
    assert '-' !in Number(first) by { assert Number(first) == NatText(first); }
    Decompose(Number(first), Number(last));
    NumberRoundTrip(first, INT64_MIN, INT64_MAX);
    NumberRoundTrip(last, INT64_MIN, INT64_MAX);
  }

  /** Positions in the wrong order are rejected. */
  lemma InvertedRejected(first: nat, last: nat, fileSize: int)
    requires last < first <= INT64_MAX
    ensures ExtractRange(RangeText(first, last), fileSize) == None
  {
    assert '-' !in Number(first) by { assert Number(first) == NatText(first); }
    Decompose(Number(first), Number(last));
    NumberRoundTrip(first, INT64_MIN, INT64_MAX);
    NumberRoundTrip(last, INT64_MIN, INT64_MAX);
  }

  /** Without a usable last position the range runs to the end of the file,
      and is rejected when it would start past that end. */
  lemma OpenRangeToEnd(first: nat, tail: string, fileSize: int)
    requires first <= INT64_MAX && ToLongLong(tail) == None
    ensures ExtractRange(ACCEPTED_UNIT + "=" + Number(first) + "-" + tail, fileSize)
            == if first <= fileSize - 1 then Some(Range(first, fileSize - 1)) else None
  {
    assert '-' !in Number(first) by { assert Number(first) == NatText(first); }
    Decompose(Number(first), tail);
    NumberRoundTrip(first, INT64_MIN, INT64_MAX);
  }

  /** Any unit other than "bytes" is rejected. */
  lemma OtherUnitRejected(unit: string, rest: string, fileSize: int)
    requires '=' !in unit && unit != ACCEPTED_UNIT
    ensures ExtractRange(unit + "=" + rest, fileSize) == None
  {
    var v := unit + "=" + rest;
    forall j | 0 <= j < |unit| ensures v[j] != '=' {
      assert v[j] == unit[j];
    }
    IndexOfAt(v, '=', 0, |unit|);
    assert Left(v, |unit|) == unit;
  }

  /** A first position that is not a number is rejected. */
  lemma BadFirstRejected(a: string, rest: string, fileSize: int)
    requires '-' !in a && ToLongLong(a) == None
    ensures ExtractRange(ACCEPTED_UNIT + "=" + a + "-" + rest, fileSize) == None
  {
    Decompose(a, rest);
  }

  /** Without a dash after the unit there is no range. */
  lemma NoDashRejected(a: string, fileSize: int)
    requires '-' !in a
    ensures ExtractRange(ACCEPTED_UNIT + "=" + a, fileSize) == None
  {
    var v := ACCEPTED_UNIT + "=" + a;
    IndexOfAt(v, '=', 0, 5);
    assert Left(v, 5) == ACCEPTED_UNIT;
    forall j | 6 <= j < |v| ensures v[j] != '-' {
      assert v[j] == a[j - 6];
    }
  }
}
