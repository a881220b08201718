/** The price table of a showtime and the validation its DTO applies. */
module PricingDto {

  /** Prices per seat type; kept as integers (whole currency units). */
  datatype Pricing = Pricing(regular: int, vip: int, couple: int)

  /** Each of the three prices is a number of at least 0. */
  predicate IsValid(p: Pricing)
  {
    p.regular >= 0 && p.vip >= 0 && p.couple >= 0
  }
}
