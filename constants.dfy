/** The fixed URLs of the service and of the upstream APIs. */
module Constants {
  const VERSION := "v1"
  const BOOKCOUNT_PATH := "/librarystats/" + VERSION + "/bookcount/"
  const READERSHIP_PATH := "/librarystats/" + VERSION + "/readership/"
  const LOCAL_ROOT := "http://localhost:8080"
  const LOCAL_BOOKCOUNT := LOCAL_ROOT + BOOKCOUNT_PATH
  const GUTENDEX := "http://129.241.150.113:8000/books/"
  const LANGUAGE2COUNTRIES := "http://129.241.150.113:3000/language2countries/"
  const COUNTRIES := "http://129.241.150.113:8080/v3.1/"
}
