/** The round trip of tests/data/binary_reader_test.py: a class registered as "T" with the
    layout "bb[e]e[s]e", a list of equal instances written with "T" and parsed back in
    repeat mode. The float fields hold the half-precision bit patterns of 1.0 to 9.0. */
module CodecExample {
  import opened Wire
  import opened Formats
  import opened Codec
  import opened CodecRoundTrip

  const TestLayout: string := "bb[e]e[s]e"

  /** The registries after the decorator on TestType has run. */
  const TestRegistry: Registry := Registry(map['T' := TestLayout], map['T' := "TestType"])

  /** The half-precision bit patterns of 1.0, 2.0, ..., 9.0. */
  const Halves: seq<Value> :=
    [Flt(0x3C00), Flt(0x4000), Flt(0x4200), Flt(0x4400), Flt(0x4500),
     Flt(0x4600), Flt(0x4700), Flt(0x4800), Flt(0x4880)]

  /** TestType(1, 2, arr1d, 3, "Hallo Welt", 4), whose serialize() lists its fields. */
  const TestObject: Value :=
    Obj("TestType", [Int(1), Int(2), List(Halves), Flt(0x4200), Str("Hallo Welt"), Flt(0x4400)])

  /** The layout is balanced: its arrays are "[e]" at 2-4 and "[s]" at 6-8. */
  lemma LayoutBalanced()
    ensures Balanced(TestLayout, 0)
    ensures TokenEnd(TestLayout, 2) == 5 && Inner(TestLayout, 2) == "e"
    ensures TokenEnd(TestLayout, 6) == 9 && Inner(TestLayout, 6) == "s"
  {
    assert Find(TestLayout, ']', 2) == 4;
    assert Find(TestLayout, ']', 6) == 8;
    assert Balanced(TestLayout, 10);
    assert Balanced(TestLayout, 9);
    assert Balanced(TestLayout, 6);
    assert Balanced(TestLayout, 5);
    assert Balanced(TestLayout, 2);
    assert Balanced(TestLayout, 1);
  }

  /** arr1d fits "[e]": nine half-precision values, not strings. */
  lemma HalvesFit()
    ensures FitsArray(TestRegistry, "e", List(Halves), 0)
  {
    assert Pow256(2) == 65536;
    assert !Halves[0].Str?;
    forall k | 0 <= k < |Halves|
      ensures FitsChar(TestRegistry, 'e', Halves[k], 0)
    {
    }
  }

  /** s1 fits "[s]": an ASCII string. */
  lemma GreetingFits()
    ensures FitsArray(TestRegistry, "s", Str("Hallo Welt"), 0)
  {
    assert Pow256(4) == 0x1_0000_0000;
    AsciiStringFits(TestRegistry, "Hallo Welt", 0);
  }

  /** The one-character tokens of the layout: i1, i2, f1 and d1. */
  lemma ScalarsFit()
    ensures FitsToken(TestRegistry, TestLayout, 0, Int(1), 1)
    ensures FitsToken(TestRegistry, TestLayout, 1, Int(2), 1)
    ensures FitsToken(TestRegistry, TestLayout, 5, Flt(0x4200), 1)
    ensures FitsToken(TestRegistry, TestLayout, 9, Flt(0x4400), 1)
  {
    assert Pow256(1) == 256 && Pow256(2) == 65536;
  }

  /** The array tokens of the layout: arr1d and s1. */
  lemma ArraysFit()
    ensures FitsToken(TestRegistry, TestLayout, 2, List(Halves), 1)
    ensures FitsToken(TestRegistry, TestLayout, 6, Str("Hallo Welt"), 1)
  {
    LayoutBalanced();
    HalvesFit();
    GreetingFits();
  }

  /** The test object fits "T" within two nested calls (the record, then its arrays). */
  lemma TestObjectFits()
    ensures FitsChar(TestRegistry, 'T', TestObject, 2)
  {
    LayoutBalanced();
    ScalarsFit();
    ArraysFit();
    var R, L := TestRegistry, TestLayout;
    FitsFromCons(R, L, 9, Flt(0x4400), [], 1);
    FitsFromCons(R, L, 6, Str("Hallo Welt"), [Flt(0x4400)], 1);
    FitsFromCons(R, L, 5, Flt(0x4200), [Str("Hallo Welt"), Flt(0x4400)], 1);
    FitsFromCons(R, L, 2, List(Halves), [Flt(0x4200), Str("Hallo Welt"), Flt(0x4400)], 1);
    FitsFromCons(R, L, 1, Int(2), [List(Halves), Flt(0x4200), Str("Hallo Welt"), Flt(0x4400)], 1);
    FitsFromCons(R, L, 0, Int(1), [Int(2), List(Halves), Flt(0x4200), Str("Hallo Welt"), Flt(0x4400)], 1);
  }

  /** n equal test objects, as the test writes them. */
  lemma {:induction false} TestObjectsFit(n: nat)
    ensures FitsPasses(TestRegistry, "T", seq(n, _ => TestObject), 2)
  {
    TestObjectFits();
    if n > 0 {
      var objs := seq(n, _ => TestObject);
      assert objs[..1] == [TestObject];
      assert objs[1..] == seq(n - 1, _ => TestObject);
      TestObjectsFit(n - 1);
    }
  }

  /** write("T", objs) followed by parse("T", repeat=True) returns the n objects with
      equal fields, and reads exactly the bytes written. */
  lemma TestRoundTrip(n: nat)
    ensures var objs := seq(n, _ => TestObject);
            var w := Codec.Write(TestRegistry, "T", List(objs), 2);
            w.err.None? && Codec.Parse(TestRegistry, "T", w.out, 0, true, 2) == Step(Ok(List(objs)), |w.out|)
  {
    TestObjectsFit(n);
    RepeatRoundTrip(TestRegistry, "T", seq(n, _ => TestObject), 2);
  }
}
