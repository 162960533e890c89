/** The versions and requirements that the example runs of the resolver use. */
module Releases {
  import opened Common
  import opened SemVer

  const ONE := Version(1, 0, 0, [], "")
  const ONE_ONE := Version(1, 1, 0, [], "")
  const ONE_UP := Requirement(Caret, ONE)
  const JUST_ONE := Requirement(Exact, ONE)

  function ReadVersion(text: string): Option<Version> {
    if text == "1.0.0" then Some(ONE) else if text == "1.1.0" then Some(ONE_ONE) else None
  }

  function ReadRange(text: string): Option<Requirement> {
    if text == "1.0.0" then Some(JUST_ONE) else if text == "^1.0.0" then Some(ONE_UP) else None
  }

  /** Both releases meet the caret requirement, the lower one only the exact one. */
  lemma Meeting()
    ensures Satisfies(ONE, ONE_UP) && Satisfies(ONE_ONE, ONE_UP)
    ensures Satisfies(ONE, JUST_ONE) && !Satisfies(ONE_ONE, JUST_ONE) && Compare(ONE, ONE_ONE) < 0
  {
    SatisfiesIffAllowed(ONE, ONE_UP);
    SatisfiesIffAllowed(ONE_ONE, ONE_UP);
    SatisfiesIffAllowed(ONE, JUST_ONE);
    SatisfiesIffAllowed(ONE_ONE, JUST_ONE);
  }
}
