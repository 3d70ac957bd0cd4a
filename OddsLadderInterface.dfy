/** The ladder an odds factory may be given.  The three ladders of the library are the
    only implementations, so the interface becomes a closed choice among them. */
module OddsLadderInterface {
  import opened Decimals
  import OddsLadder
  import UtilsOddsLadder
  import CustomOddsLadder

  datatype Ladder = Standard | Utils | Custom

  /** What `decimalToFractional` of each ladder returns for a price of k hundredths. */
  function Quote(ladder: Ladder, k: int): string {
    match ladder
    case Standard => OddsLadder.Quote(OddsLadder.GetLadder(), k)
    case Utils => UtilsOddsLadder.Quote(UtilsOddsLadder.GetLadder(), k)
    case Custom => OddsLadder.Quote(CustomOddsLadder.GetLadder(), k)
  }

  /** `decimalToFractional`, dispatched to the ladder at hand. */
  method DecimalToFractional(ladder: Ladder, decimal: string) returns (r: string)
    ensures r == Quote(ladder, RoundedHundredths(decimal))
    ensures ladder == Utils ==> r == Quote(Standard, RoundedHundredths(decimal))
  {
    match ladder
    case Standard =>
      r := OddsLadder.DecimalToFractional(OddsLadder.GetLadder(), decimal);
    case Utils =>
      r := UtilsOddsLadder.DecimalToFractional(UtilsOddsLadder.GetLadder(), decimal);
      UtilsOddsLadder.StandardLaddersAgree(RoundedHundredths(decimal));
    case Custom =>
      r := CustomOddsLadder.DecimalToFractional(decimal);
  }
}
