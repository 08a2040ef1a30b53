/**
 * The table that turns an authentication error code into the sentence shown
 * to the player, with a generic sentence that repeats the code for any code
 * the table does not know.
 */
module AuthMessages {

  // The longer sentences are written as two literals joined, which lets the
  // verifier read their first characters.
  const Messages: map<string, string> := map[
    "auth/user-not-found" := "No account found with this email",
    "auth/wrong-password" := "Incorrect password",
    "auth/email-already-in-use" := "Email already in use",
    "auth/weak-password" := "Password should be " + "at least 6 characters",
    "auth/invalid-email" := "Invalid email address",
    "auth/popup-blocked" := "Popup blocked. " + "Please allow popups for this site.",
    "auth/popup-closed-by-user" := "Sign in cancelled",
    "auth/unauthorized-domain" := "This domain is not authorized. " + "Add it in Firebase Console.",
    "auth/operation-not-allowed" := "Google sign-in not enabled " + "in Firebase Console.",
    "auth/cancelled-popup-request" := "Sign in cancelled",
    "auth/network-request-failed" := "Network error. " + "Check your internet connection."
  ]

  const FallbackPrefix := "Authentication error: "

  predicate HasPrefix(s: string, prefix: string) {
    |prefix| <= |s| && s[..|prefix|] == prefix
  }

  /** No sentence of the table is empty or starts like the generic sentence. */
  lemma TableMessagesAreSpecific(code: string)
    requires code in Messages
    ensures Messages[code] != "" && !HasPrefix(Messages[code], FallbackPrefix)
  {
    if code == "auth/user-not-found" {
      assert Messages[code] == "No account found with this email";
      assert Messages[code][0] == 'N';
    } else if code == "auth/wrong-password" {
      assert Messages[code] == "Incorrect password";
      assert Messages[code][0] == 'I';
    } else if code == "auth/email-already-in-use" {
      assert Messages[code] == "Email already in use";
      assert Messages[code][0] == 'E';
    } else if code == "auth/weak-password" {
      assert Messages[code] == "Password should be " + "at least 6 characters";
      assert Messages[code][0] == 'P';
    } else if code == "auth/invalid-email" {
      assert Messages[code] == "Invalid email address";
      assert Messages[code][0] == 'I';
    } else if code == "auth/popup-blocked" {
      assert Messages[code] == "Popup blocked. " + "Please allow popups for this site.";
      assert Messages[code][0] == 'P';
    } else if code == "auth/popup-closed-by-user" {
      assert Messages[code] == "Sign in cancelled";
      assert Messages[code][0] == 'S';
    } else if code == "auth/unauthorized-domain" {
      assert Messages[code] == "This domain is not authorized. " + "Add it in Firebase Console.";
      assert Messages[code][0] == 'T';
    } else if code == "auth/operation-not-allowed" {
      assert Messages[code] == "Google sign-in not enabled " + "in Firebase Console.";
      assert Messages[code][0] == 'G';
    } else if code == "auth/cancelled-popup-request" {
      assert Messages[code] == "Sign in cancelled";
      assert Messages[code][0] == 'S';
    } else {
      assert code == "auth/network-request-failed";
      assert Messages[code] == "Network error. " + "Check your internet connection.";
      assert Messages[code][0] == 'N';
    }
  }

  /**
   * The message for `code`: the table's sentence for a known code, otherwise
   * the generic sentence followed by the code itself. The message is never
   * empty, a generic message is recognisable by its prefix (no sentence of the
   * table starts with it), and the code can be read back from it.
   */
  function AuthErrorMessage(code: string): (msg: string)
    ensures |msg| > 0
    ensures code in Messages ==> msg == Messages[code]
    ensures code !in Messages <==> HasPrefix(msg, FallbackPrefix)
    ensures code !in Messages ==> msg[|FallbackPrefix|..] == code
  {
    // The generic sentence is also chosen for a code whose table entry is empty;
    // no entry is, so a known code always gets its own sentence.
    if code in Messages then
      TableMessagesAreSpecific(code);
      Messages[code]
    else FallbackPrefix + code
  }
}
