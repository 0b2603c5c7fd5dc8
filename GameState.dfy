/** The outcome a game is in. */
module GameStates {

  /**
   * ONGOING: guesses are still accepted. WIN: every letter of the phrase is revealed.
   * LOSE: more wrong guesses than allowed. WIN and LOSE are final.
   */
  datatype GameState = Ongoing | Win | Lose
}
