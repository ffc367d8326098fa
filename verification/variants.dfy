/** Where the two mock variants disagree, stated over the two models side
    by side. */
module Variants {
  import opened Common
  import opened Keys
  import ControllerMock
  import PortMock

  /** The left stick's X axis has opposite polarity: the controller variant
      binds `a` to the positive direction, the port variant binds `d`. */
  lemma LeftStickXOpposite(keys: KeyState)
    ensures ControllerMock.KeyMap[0].axis == 0 && PortMock.KeyMap[0].OnAxis?
    ensures PortMock.KeyMap[0].binding.axis == 0
    ensures Direction(keys, ControllerMock.KeyMap[0]) == -Direction(keys, PortMock.KeyMap[0].binding)
  {
  }

  /** Holding `a` alone pushes the controller variant's left stick right
      (positive) and the port variant's left (negative). */
  lemma HoldingAOnly(keys: KeyState)
    requires Held(keys, "a") && !Held(keys, "d")
    ensures Direction(keys, ControllerMock.KeyMap[0]) == 1
    ensures Direction(keys, PortMock.KeyMap[0].binding) == -1
  {
    LeftStickXOpposite(keys);
  }

  /** The keydown handlers read a key the same way except for names that
      convert to 0 without being `'0'` (the space bar and other blank
      names): the controller variant takes those for the cheat key, the
      port variant as ordinary held keys. */
  lemma ClassifyDiffers(key: string)
    ensures ControllerMock.Classify(key) != PortMock.Classify(key) <==>
      ToNumber(key) == Some(0) && key != "0"
    ensures ControllerMock.Classify(key) != PortMock.Classify(key) ==>
      ControllerMock.Classify(key) == SetSpeed(Motion.Unbounded) && PortMock.Classify(key) == Hold(key)
  {
    if key == "0" {
      ToNumberOfZero();
      assert ControllerMock.Classify(key) == PortMock.Classify(key);
    } else if ToNumber(key) == Some(0) {
      assert ControllerMock.Classify(key) == SetSpeed(Motion.Unbounded);
      assert PortMock.Classify(key) == Hold(key);
    } else {
      assert ControllerMock.Classify(key) == PortMock.Classify(key);
    }
  }

  /** A freshly selected pad: four axes at rest and four released buttons
      in the controller variant, no axes and no buttons in the port variant. */
  lemma InitialShapesDiffer(index: nat)
    ensures |ControllerMock.InitGamepad(index).axes| == 4 && |ControllerMock.InitGamepad(index).buttons| == 4
    ensures ControllerMock.AtRest(ControllerMock.InitGamepad(index))
    ensures PortMock.InitGamepad(index).axes == [] && PortMock.InitGamepad(index).buttons == []
  {
  }
}
