/**
 The part of `send` that looks at the host's interfaces: the IPv4 address is cut
 out of the `ip addr show <iface>` text, and the interfaces that have one are
 collected in order. Interface enumeration, the command itself and the mail
 transport are inputs or left out.
 */
module Notifier {
  import opened Wrappers
  import opened PyStr

  const Inet: string := "inet "

  /** `split("inet ")`, then `split[1].split('/')`; `None` where the code `continue`s. */
  function ExtractIPv4(output: string): Option<string> {
    var split := Split(output, Inet);
    if |split| < 2 then None
    else
      var fields := Split(split[1], "/");
      if |fields| < 2 then None else Some(fields[0])
  }

  /** `addr` is what follows the first `inet ` of the output, up to a `/`, with neither a
      `/` nor another `inet ` inside it. */
  predicate AddressAfterInet(output: string, addr: string) {
    var i := Find(output, Inet);
    && i != -1
    && addr + "/" <= output[i + |Inet|..]
    && '/' !in addr
    && Lacks(addr, Inet)
  }

  /** The text between the first `inet ` and the next one (or the end). */
  function Segment(rest: string): (seg: string)
    ensures seg <= rest
  {
    var m := Find(rest, Inet);
    if m == -1 then rest else rest[..m]
  }

  lemma ExtractIPv4Unfolded(output: string)
    ensures var i := Find(output, Inet);
            i == -1 ==> ExtractIPv4(output) == None
    ensures var i := Find(output, Inet);
            i != -1 ==>
              var seg := Segment(output[i + |Inet|..]);
              var j := Find(seg, "/");
              ExtractIPv4(output) == if j == -1 then None else Some(seg[..j])
  {
    var i := Find(output, Inet);
    SplitMany(output, Inet);
    if i != -1 {
      var rest := output[i + |Inet|..];
      SplitFirst(rest, Inet);
      var seg := Segment(rest);
      assert Split(output, Inet)[1] == Split(rest, Inet)[0];
      SplitMany(seg, "/");
      SplitFirst(seg, "/");
    }
  }

  /** The address extracted for an interface is exactly the text between the first `inet `
      of its output and the next `/`, when that `/` comes before any further `inet `. */
  lemma {:induction false} ExtractIPv4Spec(output: string, addr: string)
    ensures ExtractIPv4(output) == Some(addr) <==> AddressAfterInet(output, addr)
  {
    ExtractIPv4Unfolded(output);
    var i := Find(output, Inet);
    if i != -1 {
      var rest := output[i + |Inet|..];
      var seg := Segment(rest);
      var j := Find(seg, "/");
      if j != -1 && seg[..j] == addr {
        ExtractedIsAddress(rest, addr);
      }
      if AddressAfterInet(output, addr) {
        AddressIsExtracted(rest, addr);
      }
    }
  }

  lemma ExtractedIsAddress(rest: string, addr: string)
    requires Find(Segment(rest), "/") != -1
    requires addr == Segment(rest)[..Find(Segment(rest), "/")]
    ensures addr + "/" <= rest && '/' !in addr && Lacks(addr, Inet)
  {
    var seg := Segment(rest);
    var j := Find(seg, "/");
    OccursAtChar(seg, '/', j);
    assert addr + "/" == seg[..j + 1];
    forall k | 0 <= k < j ensures addr[k] != '/' {
      OccursAtChar(seg, '/', k);
    }
    forall p | 0 <= p <= |addr| && OccursAt(addr, Inet, p) ensures false {
      OccursInPrefix(seg, j, Inet, p);
      var m := Find(rest, Inet);
      if m != -1 {
        OccursInPrefix(rest, m, Inet, p);
      }
    }
  }

  lemma AddressIsExtracted(rest: string, addr: string)
    requires addr + "/" <= rest && '/' !in addr && Lacks(addr, Inet)
    ensures Find(Segment(rest), "/") != -1
    ensures Segment(rest)[..Find(Segment(rest), "/")] == addr
  {
    var m := Find(rest, Inet);
    if m != -1 && m <= |addr| {
      if m + |Inet| <= |addr| {
        assert rest[m..m + |Inet|] == addr[m..m + |Inet|];
        assert OccursAt(addr, Inet, m);
      } else {
        assert rest[|addr|] == '/';
        assert rest[m..m + |Inet|][|addr| - m] == rest[|addr|];
      }
    }
    var seg := Segment(rest);
    assert addr + "/" <= seg;
    assert seg[|addr|] == '/';
    OccursAtChar(seg, '/', |addr|);
    forall k | 0 <= k < |addr| ensures !OccursAt(seg, "/", k) {
      OccursAtChar(seg, '/', k);
      assert seg[k] == addr[k];
    }
    assert seg[..|addr|] == addr;
  }

  /** What `ExtractIPv4` gives for each interface's output. */
  function Extracted(outputs: seq<string>): (found: seq<Option<string>>)
    ensures |found| == |outputs|
    ensures forall i :: 0 <= i < |outputs| ==> found[i] == ExtractIPv4(outputs[i])
  {
    seq(|outputs|, i requires 0 <= i < |outputs| => ExtractIPv4(outputs[i]))
  }

  /** `[iface, ipv4]` for each interface that has an address, in interface order. */
  function Gather(ifaces: seq<string>, found: seq<Option<string>>): seq<(string, string)>
    requires |found| == |ifaces|
    decreases |ifaces|
  {
    if |ifaces| == 0 then []
    else
      var n := |ifaces| - 1;
      Gather(ifaces[..n], found[..n]) +
        match found[n]
        case None => []
        case Some(a) => [(ifaces[n], a)]
  }

  /** The loop of `send` over `socket.if_nameindex()`, where `outputs[i]` is what
      `ip addr show` prints for the `i`-th interface: the list `addr` it builds. */
  method CollectAddresses(ifaces: seq<string>, outputs: seq<string>) returns (addr: seq<(string, string)>)
    requires |outputs| == |ifaces|
    ensures addr == Gather(ifaces, Extracted(outputs))
  {
    ghost var found := Extracted(outputs);
    addr := [];
    for i := 0 to |ifaces|
      invariant addr == Gather(ifaces[..i], found[..i])
    {
      assert ifaces[..i + 1][..i] == ifaces[..i];
      assert found[..i + 1][..i] == found[..i];
      assert found[i] == ExtractIPv4(outputs[i]);
      var split := Split(outputs[i], Inet);
      if |split| < 2 {
        continue;
      }
      split := Split(split[1], "/");
      if |split| < 2 {
        continue;
      }
      var ipv4 := split[0];
      addr := addr + [(ifaces[i], ipv4)];
    }
    assert ifaces[..|ifaces|] == ifaces;
    assert found[..|found|] == found;
  }

  /** The pairs for a list of interfaces are those of its first part followed by those
      of the rest: the collected list keeps interface order. */
  lemma {:induction false} GatherAppend(i1: seq<string>, f1: seq<Option<string>>, i2: seq<string>, f2: seq<Option<string>>)
    requires |f1| == |i1| && |f2| == |i2|
    ensures Gather(i1 + i2, f1 + f2) == Gather(i1, f1) + Gather(i2, f2)
    decreases |i2|
  {
    if |i2| == 0 {
      assert i1 + i2 == i1;
      assert f1 + f2 == f1;
    } else {
      var n := |i2| - 1;
      assert (i1 + i2)[..|i1| + n] == i1 + i2[..n];
      assert (f1 + f2)[..|f1| + n] == f1 + f2[..n];
      GatherAppend(i1, f1, i2[..n], f2[..n]);
    }
  }

  /** A pair is collected exactly when its interface has that address. */
  lemma {:induction false} GatherMembers(ifaces: seq<string>, found: seq<Option<string>>, name: string, a: string)
    requires |found| == |ifaces|
    ensures (name, a) in Gather(ifaces, found) <==>
              exists i :: 0 <= i < |ifaces| && ifaces[i] == name && found[i] == Some(a)
    decreases |ifaces|
  {
    if |ifaces| > 0 {
      var n := |ifaces| - 1;
      GatherMembers(ifaces[..n], found[..n], name, a);
      if exists i :: 0 <= i < |ifaces| && ifaces[i] == name && found[i] == Some(a) {
        var i :| 0 <= i < |ifaces| && ifaces[i] == name && found[i] == Some(a);
        if i < n {
          assert ifaces[..n][i] == name && found[..n][i] == found[i];
        }
      }
      if (name, a) in Gather(ifaces[..n], found[..n]) {
        var i :| 0 <= i < n && ifaces[..n][i] == name && found[..n][i] == Some(a);
        assert ifaces[i] == name && found[i] == found[..n][i];
      }
    }
  }

  /** An interface is left out of the list exactly when its output has no address. */
  lemma {:induction false} GatherLength(ifaces: seq<string>, found: seq<Option<string>>)
    requires |found| == |ifaces|
    ensures |Gather(ifaces, found)| == |ifaces| - |set i | 0 <= i < |found| && found[i].None?|
    decreases |ifaces|
  {
    if |ifaces| > 0 {
      var n := |ifaces| - 1;
      GatherLength(ifaces[..n], found[..n]);
      var before := set i | 0 <= i < n && found[..n][i].None?;
      var all := set i | 0 <= i < |found| && found[i].None?;
      assert before == set i | 0 <= i < n && found[i].None?;
      if found[n].None? {
        assert all == before + {n};
      } else {
        assert all == before;
      }
    }
  }
}
