/** The names of queue elements: what getChildren lists, how consume finds the minimum, and the
    name it rebuilds from it. */
module ElementName {
  import opened Decimal

  const PREFIX := "element"

  /** The name ZooKeeper gives to the sequential node number n: the counter in the format %010d, with zeros
      in front up to ten digits. */
  function NodeName(n: nat): string {
    PREFIX + if n < 10_000_000_000 then Padded(n, 10) else Print(n)
  }

  predicate IsElement(name: string) {
    |name| > 7 && IsNumeral(name[7..])
  }

  /** new Integer(name.substring(7)) */
  function Number(name: string): nat
    requires IsElement(name)
  {
    Parse(name[7..])
  }

  /** root + "/element" + min, without the root. */
  function Rebuilt(min: nat): string {
    PREFIX + Print(min)
  }

  /** consume, having parsed the number of a node, asks for the node's own name. */
  predicate Found(n: nat) {
    Rebuilt(n) == NodeName(n)
  }

  /** The search loop of consume. */
  method PickMin(list: seq<string>) returns (min: nat)
    requires |list| > 0 && forall i | 0 <= i < |list| :: IsElement(list[i])
    ensures exists i :: 0 <= i < |list| && Number(list[i]) == min
    ensures forall i | 0 <= i < |list| :: min <= Number(list[i])
  {
    min := Number(list[0]);
    for k := 0 to |list|
      invariant exists i :: 0 <= i < |list| && Number(list[i]) == min
      invariant forall i | 0 <= i < k :: min <= Number(list[i])
    {
      var tempValue := Number(list[k]);
      if tempValue < min {
        min := tempValue;
      }
    }
  }

  /** For any width: the rebuilt name is the listed one exactly when its number has no leading zero. */
  lemma RebuiltIsListed(name: string)
    requires IsElement(name) && name[..7] == PREFIX
    ensures Rebuilt(Number(name)) == name <==> |name| == 8 || name[7] != '0'
  {
    PrintParse(name[7..]);
    assert name == PREFIX + name[7..];
    assert Rebuilt(Number(name))[7..] == Print(Number(name));
  }

  lemma NodeNameShape(n: nat)
    ensures IsElement(NodeName(n)) && Number(NodeName(n)) == n && NodeName(n)[..7] == PREFIX
    ensures NodeName(n)[7] == '0' <==> n < 1_000_000_000
  {
    if n < 10_000_000_000 {
      PaddedShape(n);
      assert NodeName(n)[7..] == Padded(n, 10);
    } else {
      ParsePrint(n);
      LongPrint(n);
      assert NodeName(n)[7..] == Print(n);
    }
  }

  lemma PaddedShape(n: nat)
    requires n < 10_000_000_000
    ensures Parse(Padded(n, 10)) == n
    ensures Padded(n, 10)[0] == '0' <==> n < 1_000_000_000
  {
    assert Pow10(2) == 100 && Pow10(4) == 10_000 && Pow10(6) == 1_000_000;
    assert Pow10(8) == 100_000_000;
    assert Pow10(9) == 1_000_000_000;
    assert Pow10(10) == 10_000_000_000;
    ParsePadded(n, 10);
    PaddedLeadingZero(n, 10);
  }

  lemma LongPrint(n: nat)
    requires n >= 10
    ensures |Print(n)| > 1
  {
  }

  /** The name that is asked for is the node's exactly when the number has ten digits or more. */
  lemma FoundIff(n: nat)
    ensures Found(n) <==> n >= 1_000_000_000
  {
    NodeNameShape(n);
    RebuiltIsListed(NodeName(n));
    if n < 10_000_000_000 {
      assert |NodeName(n)| == 17;
    } else {
      LongPrint(n);
    }
  }

  /** consume asks ZooKeeper for a name that exists exactly when the smallest sequence number has
      all ten digits; below 1000000000 getData and delete always miss. */
  lemma ConsumeFindsItsMinimum(nums: seq<nat>, min: nat)
    requires min in nums && forall i | 0 <= i < |nums| :: min <= nums[i]
    ensures (exists i :: 0 <= i < |nums| && NodeName(nums[i]) == Rebuilt(min)) <==> min >= 1_000_000_000
  {
    forall i | 0 <= i < |nums| ensures NodeName(nums[i]) == Rebuilt(min) ==> nums[i] == min {
      NodeNameShape(nums[i]);
      ParsePrint(min);
      assert Rebuilt(min)[7..] == Print(min);
    }
    var k :| 0 <= k < |nums| && nums[k] == min;
    FoundIff(nums[k]);
  }

  lemma NameOfSeven()
    ensures NodeName(7) == "element0000000007" && Rebuilt(7) == "element7"
  {
    assert Padded(0, 3) == "000" by {
      assert Padded(0, 1) == "0" && Padded(0, 2) == "00";
    }
    assert Padded(0, 6) == "000000" by {
      assert Padded(0, 4) == "0000" && Padded(0, 5) == "00000";
    }
    assert Padded(0, 9) == "000000000" by {
      assert Padded(0, 7) == "0000000" && Padded(0, 8) == "00000000";
    }
    assert Padded(7, 10) == Padded(0, 9) + "7" == "0000000007";
  }
}
