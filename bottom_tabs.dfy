/** The tab bar (src/components/BottomTabs.tsx): a list of tab names, an
    "add tab" mode with a name field, and removal. The active tab belongs to
    the parent and is passed in; a call of `onTabChange` is returned as
    `Some(tab)`, and no call as `None`. */
module BottomTabs {
  import opened Wrappers
  import opened Seqs
  import opened Text

  const InitialTabs: seq<string> := ["All Orders", "Pending", "Reviewed", "Arrived"]

  /** `getTabCount`: the fixed counts shown beside the initial tabs. */
  function TabCount(tab: string): (n: nat)
    ensures tab in InitialTabs <==> n > 0
  {
    if tab == "All Orders" then 5
    else if tab == "Pending" then 2
    else if tab == "Reviewed" then 2
    else if tab == "Arrived" then 1
    else 0
  }

  class Tabs {
    var tabs: seq<string>
    var showAddTab: bool
    var newTabName: string

    constructor ()
      ensures tabs == InitialTabs && !showAddTab && newTabName == ""
    {
      tabs := InitialTabs;
      showAddTab := false;
      newTabName := "";
    }

    /** The shared branch of the plus button and the name form: the trimmed
        name is appended and becomes the active tab; the field is emptied and
        add mode ends. */
    method AddNamedTab() returns (change: Option<string>)
      requires Trim(newTabName) != ""
      modifies this
      ensures tabs == old(tabs) + [Trim(old(newTabName))]
      ensures change == Some(Trim(old(newTabName)))
      ensures newTabName == "" && !showAddTab
    {
      var trimmedName := Trim(newTabName);
      tabs := tabs + [trimmedName];
      change := Some(trimmedName);
      newTabName := "";
      showAddTab := false;
    }

    /** `handleAddTabClick` */
    method HandleAddTabClick() returns (change: Option<string>)
      modifies this
      ensures old(showAddTab) && Trim(old(newTabName)) != "" ==>
        tabs == old(tabs) + [Trim(old(newTabName))] && change == Some(Trim(old(newTabName)))
        && newTabName == "" && !showAddTab
      ensures !(old(showAddTab) && Trim(old(newTabName)) != "") ==>
        tabs == old(tabs) && change == None && newTabName == old(newTabName) && showAddTab
    {
      if showAddTab && Trim(newTabName) != "" {
        change := AddNamedTab();
      } else {
        showAddTab := true;
        change := None;
      }
    }

    /** `handleNewTabNameChange` */
    method HandleNewTabNameChange(value: string)
      modifies this
      ensures newTabName == value && tabs == old(tabs) && showAddTab == old(showAddTab)
    {
      newTabName := value;
    }

    /** `handleNewTabSubmit`: a blank name changes nothing. */
    method HandleNewTabSubmit() returns (change: Option<string>)
      modifies this
      ensures Trim(old(newTabName)) != "" ==>
        tabs == old(tabs) + [Trim(old(newTabName))] && change == Some(Trim(old(newTabName)))
        && newTabName == "" && !showAddTab
      ensures Trim(old(newTabName)) == "" ==>
        tabs == old(tabs) && change == None && newTabName == old(newTabName) && showAddTab == old(showAddTab)
    {
      if Trim(newTabName) != "" {
        change := AddNamedTab();
      } else {
        change := None;
      }
    }

    /** `handleNewTabBlur`: leaving a blank name field ends add mode. */
    method HandleNewTabBlur()
      modifies this
      ensures showAddTab == (old(showAddTab) && Trim(newTabName) != "")
      ensures tabs == old(tabs) && newTabName == old(newTabName)
    {
      if Trim(newTabName) == "" {
        showAddTab := false;
      }
    }

    /** `handleRemoveTab`: with more than one tab, every tab with the name is
        dropped; if the active tab was dropped, `onTabChange(newTabs[0])` is
        called, which is `onTabChange(undefined)` (here `Some(None)`) when no
        tab is left. The last tab cannot be removed. */
    method HandleRemoveTab(tabToRemove: string, activeTab: string) returns (change: Option<Option<string>>)
      modifies this
      ensures |old(tabs)| <= 1 ==> tabs == old(tabs) && change == None
      ensures |old(tabs)| > 1 ==> tabs == Filter(Other(tabToRemove), old(tabs))
      ensures |old(tabs)| > 1 && activeTab == tabToRemove ==>
        change == Some(if tabs == [] then None else Some(tabs[0]))
      ensures activeTab != tabToRemove ==> change == None
      ensures showAddTab == old(showAddTab) && newTabName == old(newTabName)
    {
      if |tabs| > 1 {
        var newTabs := Filter(Other(tabToRemove), tabs);
        tabs := newTabs;
        if activeTab == tabToRemove {
          change := Some(if newTabs == [] then None else Some(newTabs[0]));
        } else {
          change := None;
        }
      } else {
        change := None;
      }
    }
  }

  /** Removal keeps exactly the other tabs, in order. */
  lemma RemoveKeepsOthers(tabs: seq<string>, tabToRemove: string)
    ensures forall t :: t in Filter(Other(tabToRemove), tabs) <==> t in tabs && t != tabToRemove
    ensures IsSubsequence(Filter(Other(tabToRemove), tabs), tabs)
  {
    FilterIsSubsequence(Other(tabToRemove), tabs);
  }

  /** Adding does not reject a duplicate name, so two tabs may share one;
      removing that name then leaves no tab at all. */
  lemma DuplicateRemovalEmpties(name: string)
    ensures |[name, name]| > 1 && Filter(Other(name), [name, name]) == []
  {
    assert [name, name][1..] == [name];
  }
}
