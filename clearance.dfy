/** The clearance status page: a fixed checklist of departments, each cleared, pending or on
    hold, summarised as a count of cleared items and one overall banner. */
module Clearance {
  import opened Seqs

  datatype ItemStatus = Cleared | Pending | Hold

  datatype ClearanceItem = ClearanceItem(
    id: int,
    department: string,
    status: ItemStatus,
    description: string,
    contact: string)

  /** The overall status card: one of three banners. */
  datatype Banner = OnHoldBanner | CompleteBanner | PendingBanner

  /** The checklist the page shows. */
  function ClearanceChecklist(): seq<ClearanceItem>
  {
    [ ClearanceItem(1, "Library Services", Hold, "Outstanding fee for late book return (ID: 9876).", "library@uni.edu"),
      ClearanceItem(2, "Finance Department", Pending, "Final tuition balance check for Spring 2026.", "billing@uni.edu"),
      ClearanceItem(3, "IT Services", Cleared, "All university equipment (laptop/tablet) returned.", "it-support@uni.edu"),
      ClearanceItem(4, "Academic Advisor", Pending, "Exit interview required with Dr. Chen.", "advisor.chen@uni.edu"),
      ClearanceItem(5, "Career Services", Cleared, "Graduation survey submitted.", "careers@uni.edu") ]
  }

  /** `getStatusStyle`. */
  function StatusStyle(status: ItemStatus): string
  {
    match status
    case Cleared => "bg-green-100 text-green-800 border-green-300"
    case Pending => "bg-yellow-100 text-yellow-800 border-yellow-300"
    case Hold => "bg-red-100 text-red-800 border-red-300"
  }

  /** The three statuses are styled apart. */
  lemma StatusStylesDistinct(a: ItemStatus, b: ItemStatus)
    ensures StatusStyle(a) == StatusStyle(b) <==> a == b
  {
    var green, yellow, red := StatusStyle(Cleared), StatusStyle(Pending), StatusStyle(Hold);
    assert yellow == "bg-yellow-100 text-yellow-800 border-yellow-300";
    assert green[3] == 'g' && yellow[3] == 'y' && red[3] == 'r';
  }

  function IsCleared(item: ClearanceItem): bool
  {
    item.status == Cleared
  }

  function IsHold(item: ClearanceItem): bool
  {
    item.status == Hold
  }

  function TotalItems(items: seq<ClearanceItem>): nat
  {
    |items|
  }

  /** `clearedItems`: how many items are cleared, never more than there are items. */
  function ClearedItems(items: seq<ClearanceItem>): (n: nat)
    ensures n <= TotalItems(items)
  {
    |Filter(items, IsCleared)|
  }

  /** `isComplete`: the cleared count reaches the item count exactly when every item is cleared,
      so an empty checklist is complete. */
  function IsComplete(items: seq<ClearanceItem>): (complete: bool)
    ensures complete <==> forall i :: 0 <= i < |items| ==> items[i].status == Cleared
    ensures items == [] ==> complete
  {
    CompleteIffAllCleared(items);
    TotalItems(items) == ClearedItems(items)
  }

  /** `hasHold`: some item is on hold. */
  function HasHold(items: seq<ClearanceItem>): (hold: bool)
    ensures hold <==> exists i :: 0 <= i < |items| && items[i].status == Hold
  {
    Any(items, IsHold)
  }

  /** The cleared count reaches the item count exactly when every item is cleared. */
  lemma {:induction false} CompleteIffAllCleared(items: seq<ClearanceItem>)
    ensures ClearedItems(items) == TotalItems(items)
        <==> forall i :: 0 <= i < |items| ==> items[i].status == Cleared
  {
    if ClearedItems(items) == TotalItems(items) {
      FullFilterKeepsAll(items, IsCleared);
    }
    if forall i :: 0 <= i < |items| ==> items[i].status == Cleared {
      FilterKeepsAll(items, IsCleared);
    }
  }

  /** An item on hold keeps the checklist from being complete. */
  lemma HoldBlocksCompletion(items: seq<ClearanceItem>)
    requires HasHold(items)
    ensures !IsComplete(items)
  {
  }

  /** The banner of the status card: hold first, then complete, then pending. */
  function OverallBanner(items: seq<ClearanceItem>): (b: Banner)
    ensures b == OnHoldBanner <==> exists i :: 0 <= i < |items| && items[i].status == Hold
    ensures b == CompleteBanner <==> forall i :: 0 <= i < |items| ==> items[i].status == Cleared
    ensures b == PendingBanner <==> (forall i :: 0 <= i < |items| ==> items[i].status != Hold)
                                    && exists i :: 0 <= i < |items| && items[i].status == Pending
  {
    if HasHold(items) then OnHoldBanner
    else if IsComplete(items) then CompleteBanner
    else PendingBanner
  }

  /** The page's own checklist is on hold, because of the library. */
  lemma SampleIsOnHold()
    ensures OverallBanner(ClearanceChecklist()) == OnHoldBanner
    ensures !IsComplete(ClearanceChecklist())
  {
    assert IsHold(ClearanceChecklist()[0]);
    HoldBlocksCompletion(ClearanceChecklist());
  }
}
