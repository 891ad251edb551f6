/** The run-wide ledger (GameState.cs): wave, score, health, coins and the
    kill counter. Health is clamped at zero and reaching zero signals game
    over; a spend is refused when the coins do not cover it. */
module GameState {

  datatype State = State(
    currentWave: int,
    totalScore: int,
    playerHealth: int,
    playerCoins: int,
    totalEnemiesDefeated: int)

  /** Result of SpendCoins: whether the purchase went through, and the ledger after. */
  datatype Spent = Spent(ok: bool, state: State)

  /** Result of DecreaseHealth: the ledger after, and whether the scene is reloaded. */
  datatype Hurt = Hurt(state: State, gameOver: bool)

  /** The field initialisers of the singleton. */
  function Initial(): (s: State)
    ensures s.currentWave == 1 && s.totalScore == 0 && s.playerHealth == 100
    ensures s.playerCoins == 50 && s.totalEnemiesDefeated == 0
  {
    State(1, 0, 100, 50, 0)
  }

  /** The ledger's sanity conditions: none of its counters below its floor. */
  predicate Valid(s: State)
  {
    s.currentWave >= 1 && s.playerHealth >= 0 && s.playerCoins >= 0 && s.totalEnemiesDefeated >= 0
  }

  function IncrementWave(s: State): (r: State)
    ensures r.currentWave == s.currentWave + 1
    ensures r.(currentWave := s.currentWave) == s
  {
    s.(currentWave := s.currentWave + 1)
  }

  function ResetWave(s: State): (r: State)
    ensures r.currentWave == 1
    ensures r.(currentWave := s.currentWave) == s
  {
    s.(currentWave := 1)
  }

  /** Subtracts `amount`; at or below zero the health is pinned to exactly
      zero and game over is signalled (the scene reload is the caller's). */
  function DecreaseHealth(s: State, amount: int): (r: Hurt)
    ensures r.gameOver <==> s.playerHealth - amount <= 0
    ensures r.gameOver ==> r.state.playerHealth == 0
    ensures !r.gameOver ==> r.state.playerHealth == s.playerHealth - amount
    ensures r.state.playerHealth >= 0
    ensures r.state.(playerHealth := s.playerHealth) == s
  {
    var h := s.playerHealth - amount;
    if h <= 0 then Hurt(s.(playerHealth := 0), true)
    else Hurt(s.(playerHealth := h), false)
  }

  function IncreaseHealth(s: State, amount: int): (r: State)
    ensures r.playerHealth == s.playerHealth + amount
    ensures r.(playerHealth := s.playerHealth) == s
  {
    s.(playerHealth := s.playerHealth + amount)
  }

  function ResetHealth(s: State, health: int): (r: State)
    ensures r.playerHealth == health
    ensures r.(playerHealth := s.playerHealth) == s
  {
    s.(playerHealth := health)
  }

  function AddCoins(s: State, amount: int): (r: State)
    ensures r.playerCoins == s.playerCoins + amount
    ensures r.(playerCoins := s.playerCoins) == s
  {
    s.(playerCoins := s.playerCoins + amount)
  }

  /** Succeeds exactly when the coins cover `amount`, and then takes exactly
      that amount; a refused spend leaves the ledger as it was. */
  function SpendCoins(s: State, amount: int): (r: Spent)
    ensures r.ok <==> s.playerCoins >= amount
    ensures r.ok ==> r.state.playerCoins == s.playerCoins - amount
    ensures !r.ok ==> r.state == s
    ensures r.state.(playerCoins := s.playerCoins) == s
  {
    if s.playerCoins >= amount then Spent(true, s.(playerCoins := s.playerCoins - amount))
    else Spent(false, s)
  }

  function ResetCoins(s: State, coins: int): (r: State)
    ensures r.playerCoins == coins
    ensures r.(playerCoins := s.playerCoins) == s
  {
    s.(playerCoins := coins)
  }

  function IncrementEnemiesDefeated(s: State): (r: State)
    ensures r.totalEnemiesDefeated == s.totalEnemiesDefeated + 1
    ensures r.(totalEnemiesDefeated := s.totalEnemiesDefeated) == s
  {
    s.(totalEnemiesDefeated := s.totalEnemiesDefeated + 1)
  }

  function ResetEnemiesDefeated(s: State): (r: State)
    ensures r.totalEnemiesDefeated == 0
    ensures r.(totalEnemiesDefeated := s.totalEnemiesDefeated) == s
  {
    s.(totalEnemiesDefeated := 0)
  }

  // ----- Properties relating several operations -----

  /** The initial ledger is valid, and every mutator keeps it valid given
      non-negative amounts and reset values; a spend and a damage keep it
      valid for any amount. */
  lemma ValidPreserved(s: State, amount: int, v: int)
    requires Valid(s)
    ensures Valid(Initial())
    ensures Valid(SpendCoins(s, amount).state)
    ensures Valid(DecreaseHealth(s, amount).state)
    ensures Valid(IncrementWave(s)) && Valid(ResetWave(s))
    ensures Valid(IncrementEnemiesDefeated(s)) && Valid(ResetEnemiesDefeated(s))
    ensures amount >= 0 ==> Valid(AddCoins(s, amount)) && Valid(IncreaseHealth(s, amount))
    ensures v >= 0 ==> Valid(ResetHealth(s, v)) && Valid(ResetCoins(s, v))
  {
  }

  /** A successful spend followed by a refund of the same amount restores the
      ledger; from a non-negative balance, adding then spending the same amount
      succeeds and restores it. */
  lemma SpendAddInverse(s: State, amount: int)
    requires s.playerCoins >= 0
    ensures SpendCoins(s, amount).ok ==> AddCoins(SpendCoins(s, amount).state, amount) == s
    ensures SpendCoins(AddCoins(s, amount), amount) == Spent(true, s)
  {
    var t := AddCoins(s, amount);
    assert t.(playerCoins := t.playerCoins - amount) == s;
  }

  /** Two hits of non-negative size do the same as one hit of their sum:
      the clamp at zero is absorbing, and game over is signalled by the second
      hit exactly when the combined hit would signal it. */
  lemma DecreaseHealthAdditive(s: State, a: int, b: int)
    requires a >= 0 && b >= 0
    ensures DecreaseHealth(DecreaseHealth(s, a).state, b).state == DecreaseHealth(s, a + b).state
    ensures DecreaseHealth(DecreaseHealth(s, a).state, b).gameOver
            <==> DecreaseHealth(s, a + b).gameOver
  {
  }
}
