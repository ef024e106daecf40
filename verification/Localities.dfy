/** Locality (crates/xds/src/locality.rs): region, zone and sub-zone in one colon-separated buffer. */
module Localities {
  import opened Base

  /** `region` and `zone` are end offsets into the buffer. */
  datatype Locality = Locality(buffer: string, region: nat, zone: Option<nat>)

  /** What crosses the wire; an absent part is an empty string. */
  datatype ProtoLocality = ProtoLocality(region: string, zone: string, subZone: string)

  predicate WellFormed(l: Locality) {
    && l.region <= |l.buffer|
    && (l.zone.Some? ==>
          && l.region + 1 < l.zone.value <= |l.buffer|
          && l.buffer[l.region] == ':'
          && (l.zone.value < |l.buffer| ==> l.buffer[l.zone.value] == ':'))
  }

  /** Locality::new: a sub-zone counts only under a zone. */
  function Make(region: string, zone: string, subZone: string): (l: Locality)
    ensures WellFormed(l)
  {
    if zone == "" then Locality(region, |region|, None)
    else
      var upToZone := region + ":" + zone;
      Locality(if subZone == "" then upToZone else upToZone + ":" + subZone, |region|, Some(|upToZone|))
  }

  function ToProto(l: Locality): ProtoLocality
    requires WellFormed(l)
  {
    match l.zone
    case None => ProtoLocality(l.buffer[..l.region], "", "")
    case Some(z) =>
      var subZone := if z + 1 < |l.buffer| then l.buffer[z + 1..] else "";
      ProtoLocality(l.buffer[..l.region], l.buffer[l.region + 1..z], subZone)
  }

  /** A locality as the other side of the wire sees it. */
  function Wire(l: Locality): Locality
    requires WellFormed(l)
  {
    var p := ToProto(l);
    Make(p.region, p.zone, p.subZone)
  }

  /** Something of the buffer belongs to no part: "eu:", "eu::b", "eu:a:". */
  predicate Dangling(l: Locality) {
    if l.zone.None? then |l.buffer| != l.region else |l.buffer| == l.zone.value + 1
  }

  /** The buffer joins the parts that are there; a sub-zone needs a zone. The parts come back as they were. */
  lemma MadeFromParts(region: string, zone: string, subZone: string)
    ensures var l := Make(region, zone, subZone);
            && l.buffer == (if zone == "" then region
                            else if subZone == "" then region + ":" + zone
                            else region + ":" + zone + ":" + subZone)
            && l.buffer[..l.region] == region
            && (l.zone.None? <==> zone == "")
            && (l.zone.Some? ==> l.buffer[l.region + 1..l.zone.value] == zone)
            && ToProto(l) == ProtoLocality(region, zone, if zone == "" then "" else subZone)
  {
    if zone != "" {
      var l := Make(region, zone, subZone);
      assert l.buffer == region + ":" + zone + (if subZone == "" then "" else ":" + subZone);
      if subZone != "" {
        assert l.buffer[l.zone.value + 1..] == subZone;
      }
    }
  }

  /** A locality survives the wire exactly when nothing in its buffer dangles. */
  lemma WireRoundTrip(l: Locality)
    requires WellFormed(l)
    ensures Wire(l) == l <==> !Dangling(l)
  {
    if l.zone.Some? {
      var z := l.zone.value;
      var upToZone := l.buffer[..l.region] + ":" + l.buffer[l.region + 1..z];
      assert upToZone == l.buffer[..z];
      if z == |l.buffer| {
        assert l.buffer[..z] == l.buffer;
      } else if z + 1 < |l.buffer| {
        assert l.buffer == l.buffer[..z] + ":" + l.buffer[z + 1..];
      }
    } else if !Dangling(l) {
      assert l.buffer[..l.region] == l.buffer;
    }
  }

  lemma MadeSurvivesWire(region: string, zone: string, subZone: string)
    ensures Wire(Make(region, zone, subZone)) == Make(region, zone, subZone)
  {
    WireRoundTrip(Make(region, zone, subZone));
  }

  // ---- Parsing ----

  /** The index of the first separator at or after `from`, or the length. */
  function NextColon(s: string, from: nat): (i: nat)
    requires from <= |s|
    ensures from <= i <= |s| && (i < |s| ==> s[i] == ':')
    ensures forall k :: from <= k < i ==> s[k] != ':'
    decreases |s| - from
  {
    if from == |s| || s[from] == ':' then from else NextColon(s, from + 1)
  }

  /** FromStr: up to three parts, the first not empty. */
  function Parse(s: string): (r: Option<Locality>)
    ensures r.Some? ==> WellFormed(r.value) && r.value.buffer == s && s != ""
  {
    var region := NextColon(s, 0);
    if region == 0 then None
    else if region == |s| then Some(Locality(s, region, None))
    else
      var zone := NextColon(s, region + 1);
      var l := Locality(s, region, if zone > region + 1 then Some(zone) else None);
      if zone == |s| || NextColon(s, zone + 1) == |s| then Some(l) else None
  }

  /** The separators at or after `from`. */
  function Colons(s: string, from: nat): nat
    requires from <= |s|
    decreases |s| - from
  {
    if from == |s| then 0 else (if s[from] == ':' then 1 else 0) + Colons(s, from + 1)
  }

  lemma {:induction false} ColonsCounted(s: string, from: nat)
    requires from <= |s|
    ensures Colons(s, from) == |set k | from <= k < |s| && s[k] == ':'|
    decreases |s| - from
  {
    var here := set k | from <= k < |s| && s[k] == ':';
    if from == |s| {
      assert here == {};
    } else {
      ColonsCounted(s, from + 1);
      var rest := set k | from + 1 <= k < |s| && s[k] == ':';
      assert here == if s[from] == ':' then {from} + rest else rest;
    }
  }

  lemma {:induction false} CountNext(s: string, from: nat)
    requires from <= |s|
    ensures Colons(s, from) == if NextColon(s, from) == |s| then 0 else 1 + Colons(s, NextColon(s, from) + 1)
    decreases |s| - from
  {
    if from < |s| && s[from] != ':' {
      CountNext(s, from + 1);
    }
  }

  /**
   * A name parses exactly when its region is not empty and it has at most three parts; region and
   * zone end at the first and second separator, an empty zone counting as none.
   */
  lemma ParseAccepts(s: string)
    ensures Parse(s).Some? <==> s != "" && s[0] != ':' && |set k | 0 <= k < |s| && s[k] == ':'| <= 2
    ensures Parse(s).Some? ==>
              var l := Parse(s).value;
              && (forall k :: 0 <= k < l.region ==> s[k] != ':') && (l.region < |s| ==> s[l.region] == ':')
              && (l.zone.None? <==> l.region + 1 >= |s| || s[l.region + 1] == ':')
              && (l.zone.Some? ==>
                    && l.region + 1 < l.zone.value <= |s| && (l.zone.value < |s| ==> s[l.zone.value] == ':')
                    && forall k :: l.region < k < l.zone.value ==> s[k] != ':')
  {
    var region := NextColon(s, 0);
    ColonsCounted(s, 0);
    CountNext(s, 0);
    if region < |s| {
      CountNext(s, region + 1);
      var zone := NextColon(s, region + 1);
      if zone < |s| {
        CountNext(s, zone + 1);
      }
    }
  }

  lemma {:induction false} NextColonAt(s: string, from: nat, i: nat)
    requires from <= i <= |s| && (forall k :: from <= k < i ==> s[k] != ':') && (i < |s| ==> s[i] == ':')
    ensures NextColon(s, from) == i
    decreases |s| - from
  {
    if from < i {
      NextColonAt(s, from + 1, i);
    }
  }

  /** A part without separators ends where the next one starts. */
  lemma PlainPart(part: string, before: string, rest: string)
    requires ':' !in part && (rest != "" ==> rest[0] == ':')
    ensures NextColon(before + part + rest, |before|) == |before| + |part|
  {
    var s := before + part + rest;
    assert forall k :: |before| <= k < |before| + |part| ==> s[k] == part[k - |before|];
    NextColonAt(s, |before|, |before| + |part|);
  }

  /** A locality made of parts without separators, the region not empty, is the one its name parses to. */
  lemma MadeIsParsed(region: string, zone: string, subZone: string)
    requires region != "" && ':' !in region && ':' !in zone && ':' !in subZone
    ensures var l := Make(region, zone, subZone); Parse(l.buffer) == Some(l) && !Dangling(l)
  {
    hide NextColon;
    var l := Make(region, zone, subZone);
    var s, z := l.buffer, |region| + 1 + |zone|;
    PlainPart(region, "", s[|region|..]);
    if zone != "" {
      assert s == (region + ":") + zone + s[z..];
      PlainPart(zone, region + ":", s[z..]);
      if subZone != "" {
        assert s == (region + ":" + zone + ":") + subZone + "";
        PlainPart(subZone, region + ":" + zone + ":", "");
      }
    }
    assert s == "" + region + s[|region|..];
    MadeSurvivesWire(region, zone, subZone);
    WireRoundTrip(l);
  }

  /** Parsing accepts localities that do not survive the wire. */
  lemma ParsedMayDangle()
    ensures Parse("eu:") == Some(Locality("eu:", 2, None)) && Wire(Parse("eu:").value) == Locality("eu", 2, None)
  {
    var s := "eu:";
    assert NextColon(s, 2) == 2 && NextColon(s, 1) == 2 && NextColon(s, 0) == 2;
    assert NextColon(s, 3) == 3;
    assert s[..2] == "eu";
  }
}
