/**
 * initDiagnosticoTabs: each navigation button of .tabs-diagnostico shows the item with the
 * same position. A click clears `active` from every button and every item, then gives it to
 * the clicked button and, when there is one at that position, to the item.
 */
module DiagnosisTabs {
  import opened Wrappers
  import opened ClassFlags

  /** The `active` class on the navigation buttons and on the tab items. */
  class Switcher {
    var buttonActive: seq<bool>
    var itemActive: seq<bool>

    /** The buttons and items as the markup delivers them, with whatever classes they carry. */
    constructor (buttonActive: seq<bool>, itemActive: seq<bool>)
      ensures this.buttonActive == buttonActive && this.itemActive == itemActive
    {
      this.buttonActive := buttonActive;
      this.itemActive := itemActive;
    }

    /** The click listener of button `index`: afterwards button `index` is the only active
        button, item `index` is the only active item when it exists, and otherwise no item is
        active. The new state depends only on `index` and the element counts, which a click
        does not change, so clicking the same button again changes nothing. */
    method OnButtonClick(index: nat)
      modifies this
      requires index < |buttonActive|
      ensures |buttonActive| == |old(buttonActive)| && |itemActive| == |old(itemActive)|
      ensures buttonActive == OnlyAt(|buttonActive|, Some(index))
      ensures itemActive == OnlyAt(|itemActive|, Some(index))
      ensures forall i :: 0 <= i < |buttonActive| ==> (buttonActive[i] <==> i == index)
      ensures forall i :: 0 <= i < |itemActive| ==> (itemActive[i] <==> i == index)
      ensures CountSet(buttonActive) == 1
      ensures CountSet(itemActive) == if index < |itemActive| then 1 else 0
    {
      buttonActive := ExclusiveFlags(|buttonActive|, Some(index));
      itemActive := ExclusiveFlags(|itemActive|, Some(index));
    }
  }
}
