/**
 * Key encoding and byte comparison (art.c): how an index tuple's
 * attribute values become the byte string the tree is keyed by.
 */
module ArtKey {
  import opened ArtTypes

  /** `_art_compare_key`: the difference of two bytes read as unsigned values. */
  function CompareKey(a: byte, b: byte): (r: int)
    ensures r < 0 <==> a < b
    ensures r == 0 <==> a == b
    ensures r > 0 <==> a > b
  {
    a - b
  }

  /**
   * An attribute value as the key builder sees it: a variable-length value
   * (attlen -1) by its detoasted payload, or a fixed-width value by the
   * attlen bytes read from where the value is held, lowest address first.
   */
  datatype Datum =
    | Varlena(payload: seq<byte>)
    | FixedWidth(bytes: seq<byte>)

  /** A fixed-width attribute has a positive attlen. */
  predicate DatumOk(d: Datum)
  {
    d.FixedWidth? ==> |d.bytes| >= 1
  }

  /** An index tuple as the tree stores it (art.h:74-79): key bytes and heap locator. */
  datatype ArtTuple = ArtTuple(key: seq<byte>, iptr: Iptr)

  function Reverse(s: seq<byte>): (r: seq<byte>)
    ensures |r| == |s|
    ensures forall i :: 0 <= i < |s| ==> r[i] == s[|s| - 1 - i]
  {
    if |s| == 0 then [] else Reverse(s[1..]) + [s[0]]
  }

  /** The key bytes one attribute produces. */
  function KeyOf(d: Datum): (r: seq<byte>)
    ensures d.Varlena? ==> |r| == |d.payload| + 1 && r[..|d.payload|] == d.payload && r[|d.payload|] == 0
    ensures d.FixedWidth? ==> |r| == |d.bytes| && forall k :: 0 <= k < |r| ==> r[k] == d.bytes[|d.bytes| - 1 - k]
  {
    match d
    case Varlena(p) => p + [0]
    case FixedWidth(bs) => Reverse(bs)
  }

  /**
   * The key the attribute loop leaves behind: every non-null attribute
   * replaces the key, so the last non-null one decides, and with none the
   * zeroed key of length 0 remains.
   */
  function LastKey(attrs: seq<Option<Datum>>): seq<byte>
  {
    if |attrs| == 0 then []
    else if attrs[|attrs| - 1].Some? then KeyOf(attrs[|attrs| - 1].value)
    else LastKey(attrs[..|attrs| - 1])
  }

  /** What `_art_form_key` builds: the key of LastKey and the locator if one is given. */
  function FormKeySpec(iptr: Option<Iptr>, attrs: seq<Option<Datum>>): ArtTuple
  {
    ArtTuple(LastKey(attrs), if iptr.Some? then iptr.value else ZeroIptr)
  }

  /** `_art_form_key` (art.c:70-109), with its attribute loop and its byte-reversing loop. */
  method FormKey(iptr: Option<Iptr>, attrs: seq<Option<Datum>>) returns (t: ArtTuple)
    ensures t == FormKeySpec(iptr, attrs)
  {
    var key: seq<byte> := [];
    var tid := ZeroIptr;
    if iptr.Some? {
      tid := iptr.value;
    }
    var i := 0;
    while i < |attrs|
      invariant 0 <= i <= |attrs|
      invariant key == LastKey(attrs[..i])
    {
      assert attrs[..i + 1][..i] == attrs[..i];
      match attrs[i] {
        case None =>
        case Some(d) =>
          match d {
            case Varlena(p) =>
              key := p + [0];
            case FixedWidth(bs) =>
              var buf := new byte[|bs|](_ => 0);
              var j := |bs| - 1;
              var k := 0;
              while j > -1
                invariant -1 <= j < |bs| && k == |bs| - 1 - j
                invariant forall m :: 0 <= m < k ==> buf[m] == bs[|bs| - 1 - m]
              {
                buf[k] := bs[j];
                j := j - 1;
                k := k + 1;
              }
              key := buf[..];
          }
      }
      i := i + 1;
    }
    assert attrs[..|attrs|] == attrs;
    t := ArtTuple(key, tid);
  }

  /** Reversing a fixed-width key gives the value's bytes back. */
  lemma {:induction false} FixedKeyRoundTrip(bs: seq<byte>)
    ensures Reverse(KeyOf(FixedWidth(bs))) == bs
  {
    var r := Reverse(KeyOf(FixedWidth(bs)));
    assert |r| == |bs|;
    forall i | 0 <= i < |bs|
      ensures r[i] == bs[i]
    {
    }
  }

  /**
   * The key is empty exactly when every attribute is null, which is the
   * tuple the build and insert paths skip.
   */
  lemma {:induction false} EmptyKeyIffAllNull(iptr: Option<Iptr>, attrs: seq<Option<Datum>>)
    requires forall i :: 0 <= i < |attrs| && attrs[i].Some? ==> DatumOk(attrs[i].value)
    ensures |FormKeySpec(iptr, attrs).key| == 0 <==> forall i :: 0 <= i < |attrs| ==> attrs[i].None?
  {
    if |attrs| > 0 {
      var init := attrs[..|attrs| - 1];
      if attrs[|attrs| - 1].None? {
        EmptyKeyIffAllNull(iptr, init);
        assert forall i :: 0 <= i < |init| ==> init[i] == attrs[i];
      } else {
        assert |KeyOf(attrs[|attrs| - 1].value)| >= 1;
      }
    }
  }
}
