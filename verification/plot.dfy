/** A build plot (Plot.cs), the older placement path paid from the
    LevelManager ledger. The selected tower comes from the build menu and is a
    parameter here. */
module Plot {

  import opened Wrappers
  import LevelManager

  /** A build-menu entry (Tower.cs) without its prefab. */
  datatype Tower = Tower(name: string, cost: int)

  /** The tower object on the plot, and the turret component taken from it. */
  datatype Plot = Plot(towerObj: Option<Tower>, turret: Option<Tower>)

  /** Result of ConstructTower. */
  datatype Built = Built(plot: Plot, level: LevelManager.Level)

  const Empty: Plot := Plot(None, None)

  /** Builds the selected tower on a free plot the currency covers, paying
      exactly its cost; an occupied plot, or a tower the currency does not
      cover, leaves plot and currency as they were. */
  function ConstructTower(p: Plot, level: LevelManager.Level, selected: Tower): (r: Built)
    ensures p.towerObj.Some? ==> r == Built(p, level)
    ensures p.towerObj.None? && selected.cost > level.currency ==> r == Built(p, level)
    ensures p.towerObj.None? && selected.cost <= level.currency ==>
              && r.plot.towerObj == Some(selected) && r.plot.turret == Some(selected)
              && r.level.currency == level.currency - selected.cost
              && r.level.currency >= 0
              && r.level.life == level.life
  {
    if p.towerObj.Some? then Built(p, level)
    else if selected.cost > level.currency then Built(p, level)
    else
      var spent := LevelManager.SpendCurrency(level, selected.cost);
      Built(Plot(Some(selected), Some(selected)), spent.level)
  }

  /** Clears both references of a built plot; a plot with no tower object is
      left untouched. No currency comes back. */
  function RemoveTower(p: Plot): (r: Plot)
    ensures p.towerObj.None? ==> r == p
    ensures p.towerObj.Some? ==> r.towerObj.None? && r.turret.None?
  {
    if p.towerObj.None? then p else Empty
  }

  /** Every plot runs the right-button check in its own Update, so one
      right click goes to all of them. */
  function RightClick(plots: seq<Plot>): (r: seq<Plot>)
    ensures |r| == |plots|
    ensures forall i :: 0 <= i < |plots| ==> r[i] == RemoveTower(plots[i])
  {
    seq(|plots|, i requires 0 <= i < |plots| => RemoveTower(plots[i]))
  }

  /** One right click, wherever it lands, leaves no tower on any plot. */
  lemma RightClickClearsEveryPlot(plots: seq<Plot>)
    ensures forall i :: 0 <= i < |plots| ==> RightClick(plots)[i].towerObj.None?
    ensures forall i :: 0 <= i < |plots| && plots[i].towerObj.Some? ==> RightClick(plots)[i] == Empty
  {
  }

  /** Building on a free plot and removing the tower again restores the plot
      but not the currency: the cost is lost. */
  lemma BuildThenRemoveRefundsNothing(level: LevelManager.Level, selected: Tower)
    requires selected.cost <= level.currency
    ensures RemoveTower(ConstructTower(Empty, level, selected).plot) == Empty
    ensures ConstructTower(Empty, level, selected).level.currency == level.currency - selected.cost
  {
  }

  /** A second build on the same plot is refused and costs nothing. */
  lemma BuildIsOncePerPlot(p: Plot, level: LevelManager.Level, selected: Tower, other: Tower)
    ensures var b := ConstructTower(p, level, selected);
            b.plot.towerObj.Some? ==> ConstructTower(b.plot, b.level, other) == b
  {
  }
}
