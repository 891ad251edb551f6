/** The older ledger (LevelManager.cs) used by Plot: currency and life.
    Unlike GameState it does not clamp life at zero. */
module LevelManager {

  import GameState

  datatype Level = Level(currency: int, life: int)

  /** Result of SpendCurrency: whether it went through, and the ledger after. */
  datatype Spent = Spent(ok: bool, level: Level)

  /** Result of DecreaseLife: the ledger after, and whether the scene is reloaded. */
  datatype Hurt = Hurt(level: Level, gameOver: bool)

  /** The balances set in Start. */
  function Start(): (l: Level)
    ensures l.currency == 200 && l.life == 10
  {
    Level(200, 10)
  }

  function IncreaseCurrency(l: Level, amount: int): (r: Level)
    ensures r.currency == l.currency + amount && r.life == l.life
  {
    l.(currency := l.currency + amount)
  }

  /** Succeeds exactly when the currency covers `amount`, and then takes
      exactly that amount; a refused spend changes nothing. */
  function SpendCurrency(l: Level, amount: int): (r: Spent)
    ensures r.ok <==> l.currency >= amount
    ensures r.ok ==> r.level.currency == l.currency - amount && r.level.currency >= 0
    ensures !r.ok ==> r.level == l
    ensures r.level.life == l.life
  {
    if l.currency >= amount then Spent(true, l.(currency := l.currency - amount))
    else Spent(false, l)
  }

  /** Subtracts `amount` with no clamp; game over is signalled exactly when
      the life left is at or below zero. */
  function DecreaseLife(l: Level, amount: int): (r: Hurt)
    ensures r.level.life == l.life - amount
    ensures r.gameOver <==> r.level.life <= 0
    ensures r.level.currency == l.currency
  {
    var left := l.life - amount;
    Hurt(l.(life := left), left <= 0)
  }

  /** A successful spend is undone by returning the same amount, and on a
      ledger that is not in debt, adding an amount then spending it succeeds
      and restores the ledger. */
  lemma SpendIncreaseInverse(l: Level, amount: int)
    ensures SpendCurrency(l, amount).ok ==> IncreaseCurrency(SpendCurrency(l, amount).level, amount) == l
    ensures l.currency >= 0 ==> SpendCurrency(IncreaseCurrency(l, amount), amount) == Spent(true, l)
  {
    var t := IncreaseCurrency(l, amount);
    assert t.(currency := t.currency - amount) == l;
  }

  /** The two ledgers agree on when a hit ends the game, but where GameState
      pins the health to zero, LevelManager keeps the negative remainder. */
  lemma LedgersAgreeOnGameOver(l: Level, s: GameState.State, amount: int)
    requires s.playerHealth == l.life
    ensures DecreaseLife(l, amount).gameOver == GameState.DecreaseHealth(s, amount).gameOver
    ensures GameState.DecreaseHealth(s, amount).state.playerHealth
            == (if DecreaseLife(l, amount).level.life < 0 then 0 else DecreaseLife(l, amount).level.life)
  {
  }
}
